/** Runs of the pool of kernel/src/page_alloc.rs: no two pieces of memory it has handed out overlap, within a
    tree or across trees, and none of them touches the metadata of any tree. (The pool's `free` does
    nothing.) */
module PoolRuns {
  import opened Common
  import opened BuddySpec
  import opened PagePool

  /** Every tree describes the pages of its place, and the places do not overlap. */
  ghost predicate IsPool(ps: seq<Placement>, ts: seq<Tree>) {
    && |ps| == |ts| && AreApart(Ranges(ps))
    && forall i | 0 <= i < |ts| :: Fits(ts[i], ps[i].managed.pages)
  }

  ghost predicate AreApart(rs: seq<Range>) {
    forall j, k | 0 <= j < k < |rs| :: Apart(rs[j], rs[k])
  }

  // ----- Places

  lemma {:induction false} RangesAt(ps: seq<Placement>, i: nat)
    requires i < |ps|
    ensures |Ranges(ps)| == 2 * |ps|
    ensures Ranges(ps)[2 * i] == ps[i].metadata && Ranges(ps)[2 * i + 1] == ps[i].managed
  {
    if i > 0 {
      RangesAt(ps[1..], i - 1);
    } else if |ps| > 1 {
      RangesAt(ps[1..], 0);
    }
  }

  lemma TwoApart(rs: seq<Range>, i: nat, j: nat)
    requires AreApart(rs) && i < |rs| && j < |rs| && i != j
    ensures Apart(rs[i], rs[j])
  {
  }

  lemma PlacesApart(ps: seq<Placement>, i: nat, j: nat)
    requires AreApart(Ranges(ps)) && i < |ps| && j < |ps|
    ensures Apart(ps[i].managed, ps[j].metadata)
    ensures i != j ==> Apart(ps[i].managed, ps[j].managed)
  {
    hide AreApart, Ranges, Apart;
    RangesAt(ps, i);
    RangesAt(ps, j);
    TwoApart(Ranges(ps), 2 * i + 1, 2 * j);
    if i != j {
      TwoApart(Ranges(ps), 2 * i + 1, 2 * j + 1);
    }
  }

  lemma {:induction false} RangesJoined(ps: seq<Placement>, qs: seq<Placement>)
    ensures Ranges(ps + qs) == Ranges(ps) + Ranges(qs)
  {
    if ps == [] {
      assert ps + qs == qs;
    } else {
      assert (ps + qs)[1..] == ps[1..] + qs;
      RangesJoined(ps[1..], qs);
    }
  }

  /** Carving a region apart from all places so far keeps all places apart. */
  lemma CarvedApart(ps: seq<Placement>, start: nat, pages: nat)
    requires AreApart(Ranges(ps)) && forall r | r in Ranges(ps) :: Apart(r, Range(start, pages))
    ensures AreApart(Ranges(ps + Carving(start, pages)))
  {
    hide Carving, Ranges;
    var qs := Carving(start, pages);
    CarvingIsSound(start, pages);
    RangesJoined(ps, qs);
    var rs, all := Ranges(ps), Ranges(ps) + Ranges(qs);
    forall j, k | 0 <= j < k < |all| ensures Apart(all[j], all[k]) {
      if j < |rs| <= k {
        assert all[j] == rs[j] && rs[j] in rs && all[k] == Ranges(qs)[k - |rs|];
      }
    }
  }

  // ----- States

  /** Carving a region apart from all places so far adds free trees to a pool and leaves it one. */
  lemma CarvedIsPool(ps: seq<Placement>, ts: seq<Tree>, start: nat, pages: nat)
    requires IsPool(ps, ts) && forall r | r in Ranges(ps) :: Apart(r, Range(start, pages))
    ensures IsPool(ps + Carving(start, pages), ts + seq(|Carving(start, pages)|, _ => FREE))
  {
    hide Carving, Ranges, AreApart, Apart, Inside;
    CarvingIsSound(start, pages);
    CarvedApart(ps, start, pages);
    var qs := Carving(start, pages);
    var all, trees := ps + qs, ts + seq(|qs|, _ => FREE);
    forall i | 0 <= i < |all| ensures Fits(trees[i], all[i].managed.pages) {
      if i >= |ps| {
        assert all[i] == qs[i - |ps|] && all[i] in qs;
      }
    }
  }

  predicate IsLive(ps: seq<Placement>, ts: seq<Tree>, g: Grant)
    requires |ps| == |ts|
  {
    g.tree < |ts| && g.block in Blocks(ts[g.tree], ps[g.tree].managed.pages, 0)
  }

  /** Memory of a live block lies in what its tree manages. */
  lemma LiveInside(ps: seq<Placement>, ts: seq<Tree>, g: Grant)
    requires IsPool(ps, ts) && IsLive(ps, ts, g)
    ensures Inside(RangeOf(ps, g), ps[g.tree].managed) && g.block.size > 0
  {
    LeavesWithin(ts[g.tree], ps[g.tree].managed.pages, 0);
  }

  lemma InsideApart(a: Range, b: Range, c: Range)
    requires Inside(a, b) && Apart(b, c)
    ensures Apart(a, c) && Apart(c, a)
  {
  }

  /** In every state of the pool: the memory of two live blocks does not overlap, and none overlaps any
      metadata. */
  lemma LiveApart(ps: seq<Placement>, ts: seq<Tree>, g: Grant, h: Grant)
    requires IsPool(ps, ts) && IsLive(ps, ts, g) && IsLive(ps, ts, h)
    ensures g != h ==> Apart(RangeOf(ps, g), RangeOf(ps, h))
    ensures Apart(RangeOf(ps, g), ps[h.tree].metadata)
  {
    hide AreApart, Ranges, RangeOf, Inside, Apart;
    LiveInside(ps, ts, g);
    LiveInside(ps, ts, h);
    PlacesApart(ps, g.tree, h.tree);
    InsideApart(RangeOf(ps, g), ps[g.tree].managed, ps[h.tree].metadata);
    if g.tree != h.tree {
      InsideApart(RangeOf(ps, g), ps[g.tree].managed, ps[h.tree].managed);
      InsideApart(RangeOf(ps, h), ps[h.tree].managed, RangeOf(ps, g));
    } else if g != h {
      LeavesDisjoint(ts[g.tree], ps[g.tree].managed.pages, 0, g.block, h.block);
      BlocksApart(ps, g, h);
    }
  }

  lemma BlocksApart(ps: seq<Placement>, g: Grant, h: Grant)
    requires g.tree == h.tree < |ps| && Disjoint(g.block, h.block)
    ensures Apart(RangeOf(ps, g), RangeOf(ps, h))
  {
  }

  // ----- Runs

  /** One request after the other; an answer is the block given, if any. */
  function Run(ps: seq<Placement>, ts: seq<Tree>, requests: seq<nat>): (seq<Tree>, seq<Option<Grant>>)
    requires |ps| == |ts|
    decreases |requests|
  {
    if requests == [] then (ts, [])
    else
      var (g, ts1) := PoolAlloc(ps, ts, requests[0], 0);
      var (ts2, gs) := Run(ps, ts1, requests[1..]);
      (ts2, [g] + gs)
  }

  lemma PoolAllocAdds(ps: seq<Placement>, ts: seq<Tree>, pages: nat, h: Grant)
    requires IsPool(ps, ts)
    ensures
      var (g, ts') := PoolAlloc(ps, ts, pages, 0);
      && IsPool(ps, ts')
      && (IsLive(ps, ts', h) <==> IsLive(ps, ts, h) || g == Some(h))
      && (g.Some? ==> !IsLive(ps, ts, g.value))
  {
    hide Alloc, AreApart;
    PoolAllocIsFirst(ps, ts, pages, 0);
    var (g, ts') := PoolAlloc(ps, ts, pages, 0);
    if g.Some? {
      AllocAdds(ts[g.value.tree], ps[g.value.tree].managed.pages, pages);
    }
  }

  /** Over every run: what was live and what is given stays live, is given once only, and nothing else is. */
  lemma {:induction false} RunGrants(ps: seq<Placement>, ts: seq<Tree>, requests: seq<nat>, h: Grant)
    requires IsPool(ps, ts)
    ensures
      var (ts', gs) := Run(ps, ts, requests);
      && |gs| == |requests| && IsPool(ps, ts')
      && (IsLive(ps, ts', h) <==> IsLive(ps, ts, h) || Some(h) in gs)
      && (IsLive(ps, ts, h) ==> Some(h) !in gs)
      && (forall i, j | 0 <= i < j < |gs| && gs[i] == Some(h) :: gs[j] != Some(h))
    decreases |requests|
  {
    hide IsLive, PoolAlloc, AreApart, Fits;
    if requests != [] {
      var (g, ts1) := PoolAlloc(ps, ts, requests[0], 0);
      PoolKeeps(ps, ts, requests[0], h);
      RunGrants(ps, ts1, requests[1..], h);
    }
  }

  lemma PoolKeeps(ps: seq<Placement>, ts: seq<Tree>, pages: nat, h: Grant)
    requires IsPool(ps, ts)
    ensures
      var (g, ts') := PoolAlloc(ps, ts, pages, 0);
      && IsPool(ps, ts') && |ts'| == |ps|
      && (IsLive(ps, ts', h) <==> IsLive(ps, ts, h) || g == Some(h))
      && (IsLive(ps, ts, h) ==> g != Some(h))
  {
    PoolAllocAdds(ps, ts, pages, h);
  }

  /** Each block given over a run is large enough, and less than twice as large as asked. */
  lemma {:induction false} RunSizes(ps: seq<Placement>, ts: seq<Tree>, requests: seq<nat>, i: nat)
    requires IsPool(ps, ts) && i < |requests|
    ensures
      var gs := Run(ps, ts, requests).1;
      |gs| == |requests| && (gs[i].Some? ==> gs[i].value.block.size / 2 < requests[i] <= gs[i].value.block.size)
    decreases |requests|
  {
    hide IsLive, PoolAlloc, AreApart, Fits;
    RunGrants(ps, ts, requests, Grant(0, Block(0, 0)));
    PoolKeeps(ps, ts, requests[0], Grant(0, Block(0, 0)));
    if i == 0 {
      GrantSize(ps, ts, requests[0]);
    } else {
      RunSizes(ps, PoolAlloc(ps, ts, requests[0], 0).1, requests[1..], i - 1);
    }
  }

  lemma GrantSize(ps: seq<Placement>, ts: seq<Tree>, pages: nat)
    requires IsPool(ps, ts)
    ensures
      var g := PoolAlloc(ps, ts, pages, 0).0;
      g.Some? ==> g.value.block.size / 2 < pages <= g.value.block.size
  {
    hide Alloc, AreApart;
    PoolAllocIsFirst(ps, ts, pages, 0);
    var g := PoolAlloc(ps, ts, pages, 0).0;
    if g.Some? {
      AllocAdds(ts[g.value.tree], ps[g.value.tree].managed.pages, pages);
    }
  }

  /** What it means that memory is apart or inside, in bytes. */
  lemma RangesInBytes(ps: seq<Placement>, g: Grant, h: Grant)
    requires g.tree < |ps| && h.tree < |ps|
    ensures
      var (p, q) := (ps[g.tree].managed, ps[h.tree].managed);
      var (x, y) := (p.start + g.block.start * 4096, q.start + h.block.start * 4096);
      && (Apart(RangeOf(ps, g), RangeOf(ps, h)) <==>
            x + g.block.size * 4096 <= y || y + h.block.size * 4096 <= x)
      && (Inside(RangeOf(ps, g), p) <==> p.start <= x && x + g.block.size * 4096 <= p.start + p.pages * 4096)
      && (Apart(RangeOf(ps, g), ps[h.tree].metadata) <==>
            || x + g.block.size * 4096 <= ps[h.tree].metadata.start
            || ps[h.tree].metadata.start + ps[h.tree].metadata.pages * 4096 <= x)
  {
  }

  /** Over every run of the pool, the pieces of memory handed out do not overlap, each lies in what its tree
      manages, and none overlaps the metadata of any tree. */
  lemma RunIsApart(ps: seq<Placement>, ts: seq<Tree>, requests: seq<nat>, i: nat, j: nat, k: nat)
    requires IsPool(ps, ts) && i < j < |requests| && k < |ps|
    ensures
      var gs := Run(ps, ts, requests).1;
      && |gs| == |requests|
      && (gs[i].Some? ==>
            && gs[i].value.tree < |ps| && Inside(RangeOf(ps, gs[i].value), ps[gs[i].value.tree].managed)
            && Apart(RangeOf(ps, gs[i].value), ps[k].metadata))
      && (gs[i].Some? && gs[j].Some? ==>
            gs[j].value.tree < |ps| && Apart(RangeOf(ps, gs[i].value), RangeOf(ps, gs[j].value)))
  {
    hide AreApart, Ranges, RangeOf, Inside, Apart, PoolAlloc, Fits, IsLive;
    RunGrants(ps, ts, requests, Grant(0, Block(0, 0)));
    var (ts', gs) := Run(ps, ts, requests);
    if gs[i].Some? {
      var g := gs[i].value;
      RunGrants(ps, ts, requests, g);
      GrantInside(ps, ts', g, k);
      if gs[j].Some? {
        RunGrants(ps, ts, requests, gs[j].value);
        GrantInside(ps, ts', gs[j].value, k);
        GrantsApart(ps, ts', g, gs[j].value);
      }
    }
  }

  lemma GrantInside(ps: seq<Placement>, ts: seq<Tree>, g: Grant, k: nat)
    requires IsPool(ps, ts) && IsLive(ps, ts, g) && k < |ps|
    ensures g.tree < |ps| && Inside(RangeOf(ps, g), ps[g.tree].managed) && Apart(RangeOf(ps, g), ps[k].metadata)
  {
    hide AreApart, Ranges, RangeOf, Inside, Apart;
    LiveInside(ps, ts, g);
    PlacesApart(ps, g.tree, k);
    InsideApart(RangeOf(ps, g), ps[g.tree].managed, ps[k].metadata);
  }

  lemma GrantsApart(ps: seq<Placement>, ts: seq<Tree>, g: Grant, h: Grant)
    requires IsPool(ps, ts) && IsLive(ps, ts, g) && IsLive(ps, ts, h) && g != h
    ensures g.tree < |ps| && h.tree < |ps| && Apart(RangeOf(ps, g), RangeOf(ps, h))
  {
    hide AreApart;
    LiveApart(ps, ts, g, h);
  }
}
