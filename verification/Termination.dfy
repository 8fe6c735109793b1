/** When every walk must end: a rank that falls along every possible hop, or some behaviour goes on for ever. */
module Termination {
  import opened Wrappers
  import opened Policy
  import opened Trace
  import opened Engine
  import opened WalkSafety

  /** Where a behaviour that fails only in `mayFail` can go from a declared node. */
  function Hop<P>(g: CompiledGraph<P>, mayFail: set<string>, id: string, failed: bool): Option<string> {
    if id in g.nodes && (failed ==> id in mayFail) then Onward(g, id, failed) else None
  }

  /** Every failure of the walk is at a node that may fail. */
  ghost predicate FailuresIn<W>(t: seq<Move<W>>, mayFail: set<string>) {
    t != [] ==>
      && (t[0].outcome.Errored? && t[0].edge != NodeNotFound ==> t[0].nodeId in mayFail)
      && FailuresIn(t[1..], mayFail)
  }

  /** A walk as a list of hops: each move leads on by a hop to the next. */
  ghost predicate HopPath<P, W>(g: CompiledGraph<P>, mayFail: set<string>, t: seq<Move<W>>) {
    t != [] ==>
      && (t[0].nodeId in g.nodes || |t| == 1)
      && (|t| > 1 ==> exists failed :: Hop(g, mayFail, t[0].nodeId, failed) == Some(t[1].nodeId))
      && HopPath(g, mayFail, t[1..])
  }

  lemma StepIsHop<P, W>(
    g: CompiledGraph<P>, pl: Plugins<P, W>, mayFail: set<string>, id: string, ctx: Context, w: W)
    requires FailuresIn([StepAt(g, pl, id, ctx, w)], mayFail)
    ensures var m := StepAt(g, pl, id, ctx, w);
            m.nodeId == id && m.next == if id in g.nodes then Hop(g, mayFail, id, m.outcome.Errored?) else None
  {
  }

  lemma FailuresInTail<W>(m: Move<W>, t: seq<Move<W>>, mayFail: set<string>)
    requires FailuresIn([m] + t, mayFail)
    ensures FailuresIn([m], mayFail) && FailuresIn(t, mayFail)
  {
    assert ([m] + t)[1..] == t;
  }

  lemma TrailStarts<P, W>(g: CompiledGraph<P>, pl: Plugins<P, W>, id: string, ctx: Context, w: W, fuel: nat)
    ensures var t := Trail(g, pl, id, ctx, w, fuel); t != [] ==> t[0].nodeId == id
  {
  }

  lemma HopPathCons<P, W>(g: CompiledGraph<P>, mayFail: set<string>, m: Move<W>, rest: seq<Move<W>>)
    requires HopPath(g, mayFail, rest) && (m.nodeId in g.nodes || rest == [])
    requires m.nodeId in g.nodes ==> m.next == Hop(g, mayFail, m.nodeId, m.outcome.Errored?)
    requires rest != [] ==> m.next == Some(rest[0].nodeId)
    ensures HopPath(g, mayFail, [m] + rest)
  {
    assert ([m] + rest)[1..] == rest;
  }

  /** The first move of a trail, and the rest. */
  lemma TrailSplit<P, W>(
    g: CompiledGraph<P>, pl: Plugins<P, W>, mayFail: set<string>, id: string, ctx: Context, w: W, fuel: nat)
    returns (m: Move<W>, rest: seq<Move<W>>)
    requires fuel > 0 && FailuresIn(Trail(g, pl, id, ctx, w, fuel), mayFail)
    ensures Trail(g, pl, id, ctx, w, fuel) == [m] + rest && FailuresIn(rest, mayFail)
    ensures rest == if m.next.None? then [] else Trail(g, pl, m.next.value, m.ctx, m.world, fuel - 1)
    ensures m.nodeId in g.nodes ==> m.next == Hop(g, mayFail, m.nodeId, m.outcome.Errored?)
    ensures rest != [] ==> m.nodeId in g.nodes && m.next == Some(rest[0].nodeId)
  {
    m := StepAt(g, pl, id, ctx, w);
    rest := if m.next.None? then [] else Trail(g, pl, m.next.value, m.ctx, m.world, fuel - 1);
    FailuresInTail(m, rest, mayFail);
    StepIsHop(g, pl, mayFail, id, ctx, w);
    if m.next.Some? {
      TrailStarts(g, pl, m.next.value, m.ctx, m.world, fuel - 1);
    }
  }

  lemma {:induction false} TrailIsHopPath<P, W>(
    g: CompiledGraph<P>, pl: Plugins<P, W>, mayFail: set<string>, id: string, ctx: Context, w: W, fuel: nat,
    t: seq<Move<W>>)
    requires t == Trail(g, pl, id, ctx, w, fuel) && FailuresIn(t, mayFail)
    ensures HopPath(g, mayFail, t)
    decreases fuel
  {
    if fuel > 0 {
      var m, rest := TrailSplit(g, pl, mayFail, id, ctx, w, fuel);
      if m.next.Some? {
        TrailIsHopPath(g, pl, mayFail, m.next.value, m.ctx, m.world, fuel - 1, rest);
      }
      HopPathCons(g, mayFail, m, rest);
    }
  }

  // ---- A rank bounds every walk ----

  /** A region that a walk cannot leave but for a missing node, and a rank that falls with every hop in it. */
  ghost predicate Ranked<P>(g: CompiledGraph<P>, region: set<string>, rank: string -> nat, mayFail: set<string>) {
    && region <= g.nodes.Keys && (g.entry in g.nodes ==> g.entry in region)
    && forall id, failed
         | id in region && Hop(g, mayFail, id, failed).Some? && Hop(g, mayFail, id, failed).value in g.nodes ::
         Hop(g, mayFail, id, failed).value in region && rank(Hop(g, mayFail, id, failed).value) < rank(id)
  }

  /** The walk stays in the region, up to a missing node at its end, and its ranks fall. */
  ghost predicate Falls<P, W>(g: CompiledGraph<P>, region: set<string>, rank: string -> nat, t: seq<Move<W>>) {
    && (forall i | 0 <= i < |t| :: t[i].nodeId in region || (i == |t| - 1 && t[i].nodeId !in g.nodes))
    && (forall i, j | 0 <= i < j < |t| && t[j].nodeId in region :: rank(t[j].nodeId) < rank(t[i].nodeId))
  }

  lemma FallsCons<P, W>(g: CompiledGraph<P>, region: set<string>, rank: string -> nat, m: Move<W>, t: seq<Move<W>>)
    requires m.nodeId in region && Falls(g, region, rank, t)
    requires t != [] && t[0].nodeId in region ==> rank(t[0].nodeId) < rank(m.nodeId)
    ensures Falls(g, region, rank, [m] + t)
  {
    var all := [m] + t;
    forall i, j | 0 <= i < j < |all| && all[j].nodeId in region ensures rank(all[j].nodeId) < rank(all[i].nodeId) {
      if i == 0 && j > 1 {
        assert rank(t[j - 1].nodeId) < rank(t[0].nodeId);
      }
    }
  }

  lemma HopFalls<P>(
    g: CompiledGraph<P>, region: set<string>, rank: string -> nat, mayFail: set<string>, id: string, failed: bool,
    next: string)
    requires Ranked(g, region, rank, mayFail) && id in region && Hop(g, mayFail, id, failed) == Some(next)
    ensures next in g.nodes ==> next in region
    ensures next in region ==> rank(next) < rank(id)
  {
  }

  lemma {:induction false} RanksFall<P, W>(
    g: CompiledGraph<P>, region: set<string>, rank: string -> nat, mayFail: set<string>, t: seq<Move<W>>)
    requires Ranked(g, region, rank, mayFail) && HopPath(g, mayFail, t)
    requires t != [] && t[0].nodeId in g.nodes ==> t[0].nodeId in region
    ensures Falls(g, region, rank, t)
  {
    if |t| > 1 {
      var failed :| Hop(g, mayFail, t[0].nodeId, failed) == Some(t[1].nodeId);
      HopFalls(g, region, rank, mayFail, t[0].nodeId, failed, t[1].nodeId);
      RanksFall(g, region, rank, mayFail, t[1..]);
      FallsCons(g, region, rank, t[0], t[1..]);
      assert t == [t[0]] + t[1..];
    }
  }

  ghost function VisitedIds<W>(t: seq<Move<W>>): set<string> {
    set m | m in t :: m.nodeId
  }

  lemma {:induction false} DistinctVisits<W>(t: seq<Move<W>>)
    requires forall i, j | 0 <= i < j < |t| :: t[i].nodeId != t[j].nodeId
    ensures |VisitedIds(t)| == |t|
  {
    if t != [] {
      var init, last := t[..|t| - 1], t[|t| - 1];
      DistinctVisits(init);
      assert t == init + [last];
      assert VisitedIds(t) == VisitedIds(init) + {last.nodeId};
      assert last.nodeId !in VisitedIds(init);
    }
  }

  lemma SubsetSize(a: set<string>, b: set<string>)
    requires a <= b
    ensures |a| <= |b|
  {
    assert b == a + (b - a);
  }

  /** A trail that did not use up its fuel has halted. */
  lemma {:induction false} ShortTrailHalted<P, W>(
    g: CompiledGraph<P>, pl: Plugins<P, W>, id: string, ctx: Context, w: W, fuel: nat)
    requires |Trail(g, pl, id, ctx, w, fuel)| < fuel
    ensures Halted(Trail(g, pl, id, ctx, w, fuel))
    decreases fuel
  {
    TrailHead(g, pl, id, ctx, w, fuel);
    var m := StepAt(g, pl, id, ctx, w);
    if m.next.Some? {
      ShortTrailHalted(g, pl, m.next.value, m.ctx, m.world, fuel - 1);
    }
  }

  lemma FallingIsShort<P, W>(g: CompiledGraph<P>, region: set<string>, rank: string -> nat, t: seq<Move<W>>)
    requires Falls(g, region, rank, t)
    ensures |t| <= |region| + 1
    ensures (forall m | m in t :: m.nodeId in region) ==> |t| <= |region|
  {
    var inside := if t != [] && t[|t| - 1].nodeId !in region then t[..|t| - 1] else t;
    DistinctVisits(inside);
    SubsetSize(VisitedIds(inside), region);
  }

  /** With such a rank every walk whose failures are where they may be ends within as many steps as the region has
      nodes, and one more only if that runs into a missing node. */
  lemma RankedWalkEnds<P, W>(
    g: CompiledGraph<P>, pl: Plugins<P, W>, region: set<string>, rank: string -> nat, mayFail: set<string>,
    ctx: Context, w: W, fuel: nat)
    requires Ranked(g, region, rank, mayFail) && FailuresIn(Trail(g, pl, g.entry, ctx, w, fuel), mayFail)
    ensures var t := Trail(g, pl, g.entry, ctx, w, fuel);
            && |t| <= |region| + 1
            && (|t| == |region| + 1 ==> t[|t| - 1].nodeId !in g.nodes)
            && (fuel > |region| + 1 ==> Halted(t))
  {
    var t := Trail(g, pl, g.entry, ctx, w, fuel);
    TrailIsHopPath(g, pl, mayFail, g.entry, ctx, w, fuel, t);
    TrailStarts(g, pl, g.entry, ctx, w, fuel);
    RanksFall(g, region, rank, mayFail, t);
    FallingIsShort(g, region, rank, t);
    if |t| == |region| + 1 {
      var m :| m in t && m.nodeId !in region;
    }
    if fuel > |region| + 1 {
      ShortTrailHalted(g, pl, g.entry, ctx, w, fuel);
    }
  }

  // ---- Without a rank some behaviour goes on for ever ----

  /** The most hops, up to `n`, that can follow from `id`. */
  ghost function Depth<P>(g: CompiledGraph<P>, mayFail: set<string>, id: string, n: nat): nat
    decreases n
  {
    if n == 0 then 0
    else
      var done, failed := Hop(g, mayFail, id, false), Hop(g, mayFail, id, true);
      var a := if done.Some? then 1 + Depth(g, mayFail, done.value, n - 1) else 0;
      var b := if failed.Some? then 1 + Depth(g, mayFail, failed.value, n - 1) else 0;
      if a >= b then a else b
  }

  ghost predicate Endless<P>(g: CompiledGraph<P>, mayFail: set<string>, id: string) {
    forall n: nat :: Depth(g, mayFail, id, n) == n
  }

  lemma {:induction false} DepthWithin<P>(g: CompiledGraph<P>, mayFail: set<string>, id: string, n: nat)
    ensures Depth(g, mayFail, id, n) <= n
    ensures Depth(g, mayFail, id, n) < n ==> Depth(g, mayFail, id, n + 1) == Depth(g, mayFail, id, n)
    decreases n
  {
    if n > 0 {
      forall failed | Hop(g, mayFail, id, failed).Some?
        ensures var to := Hop(g, mayFail, id, failed).value;
                && Depth(g, mayFail, to, n - 1) <= n - 1
                && (Depth(g, mayFail, to, n - 1) < n - 1 ==> Depth(g, mayFail, to, n) == Depth(g, mayFail, to, n - 1))
      {
        DepthWithin(g, mayFail, Hop(g, mayFail, id, failed).value, n - 1);
      }
    }
  }

  lemma {:induction false} DepthSettled<P>(g: CompiledGraph<P>, mayFail: set<string>, id: string, n: nat, m: nat)
    requires n <= m && Depth(g, mayFail, id, n) < n
    ensures Depth(g, mayFail, id, m) == Depth(g, mayFail, id, n)
    decreases m
  {
    if n < m {
      DepthSettled(g, mayFail, id, n, m - 1);
      DepthWithin(g, mayFail, id, m - 1);
    }
  }

  lemma DepthAfterHop<P>(g: CompiledGraph<P>, mayFail: set<string>, id: string, failed: bool, next: string, n: nat)
    requires Hop(g, mayFail, id, failed) == Some(next)
    ensures Depth(g, mayFail, id, n + 1) >= 1 + Depth(g, mayFail, next, n)
  {
  }

  lemma EndlessBack<P>(g: CompiledGraph<P>, mayFail: set<string>, id: string, failed: bool, next: string)
    requires Hop(g, mayFail, id, failed) == Some(next) && Endless(g, mayFail, next)
    ensures Endless(g, mayFail, id)
  {
    forall n: nat ensures Depth(g, mayFail, id, n) == n {
      DepthWithin(g, mayFail, id, n);
      if n > 0 {
        DepthAfterHop(g, mayFail, id, failed, next, n - 1);
      }
    }
  }

  /** A number of hops that cannot be made from an id that is not endless. */
  lemma OutOfReach<P>(g: CompiledGraph<P>, mayFail: set<string>, id: string) returns (n: nat)
    requires !Endless(g, mayFail, id)
    ensures Depth(g, mayFail, id, n) < n
  {
    n :| Depth(g, mayFail, id, n) != n;
    DepthWithin(g, mayFail, id, n);
  }

  /** The most hops that can follow, where that is bounded. */
  ghost function Rank<P>(g: CompiledGraph<P>, mayFail: set<string>, id: string): nat {
    if exists n: nat :: Depth(g, mayFail, id, n) < n then
      var n: nat :| Depth(g, mayFail, id, n) < n;
      Depth(g, mayFail, id, n)
    else 0
  }

  lemma RankIsDepth<P>(g: CompiledGraph<P>, mayFail: set<string>, id: string, n: nat)
    requires Depth(g, mayFail, id, n) < n
    ensures Rank(g, mayFail, id) == Depth(g, mayFail, id, n)
  {
    var k: nat :| Depth(g, mayFail, id, k) < k && Rank(g, mayFail, id) == Depth(g, mayFail, id, k);
    DepthSettled(g, mayFail, id, k, k + n);
    DepthSettled(g, mayFail, id, n, k + n);
  }

  lemma RankFalls<P>(g: CompiledGraph<P>, mayFail: set<string>, id: string, failed: bool, next: string)
    requires !Endless(g, mayFail, id) && Hop(g, mayFail, id, failed) == Some(next)
    ensures !Endless(g, mayFail, next) && Rank(g, mayFail, next) < Rank(g, mayFail, id)
  {
    if Endless(g, mayFail, next) {
      EndlessBack(g, mayFail, id, failed, next);
    }
    var n := OutOfReach(g, mayFail, id);
    var k := OutOfReach(g, mayFail, next);
    RankIsDepth(g, mayFail, id, n);
    RankIsDepth(g, mayFail, next, k);
    DepthSettled(g, mayFail, id, n, n + k + 1);
    DepthSettled(g, mayFail, next, k, n + k);
    DepthAfterHop(g, mayFail, id, failed, next, n + k);
  }

  /** The nodes from which every such walk ends, ranked by the longest. */
  lemma RankedByDepth<P>(g: CompiledGraph<P>, mayFail: set<string>) returns (region: set<string>, rank: string -> nat)
    requires !Endless(g, mayFail, g.entry)
    ensures Ranked(g, region, rank, mayFail)
  {
    region := set id | id in g.nodes.Keys && !Endless(g, mayFail, id);
    rank := id => Rank(g, mayFail, id);
    forall id, failed
      | id in region && Hop(g, mayFail, id, failed).Some? && Hop(g, mayFail, id, failed).value in g.nodes
      ensures Hop(g, mayFail, id, failed).value in region && rank(Hop(g, mayFail, id, failed).value) < rank(id)
    {
      RankFalls(g, mayFail, id, failed, Hop(g, mayFail, id, failed).value);
    }
  }

  lemma OptionOutOfReach<P>(g: CompiledGraph<P>, mayFail: set<string>, to: Option<string>) returns (n: nat)
    requires to.Some? ==> !Endless(g, mayFail, to.value)
    ensures to.Some? ==> forall m: nat | n <= m :: Depth(g, mayFail, to.value, m) < m
  {
    n := 0;
    if to.Some? {
      n := OutOfReach(g, mayFail, to.value);
      forall m: nat | n <= m ensures Depth(g, mayFail, to.value, m) < m {
        DepthSettled(g, mayFail, to.value, n, m);
      }
    }
  }

  lemma EndsAfterHops<P>(g: CompiledGraph<P>, mayFail: set<string>, id: string)
    requires forall failed ::
               Hop(g, mayFail, id, failed).Some? ==> !Endless(g, mayFail, Hop(g, mayFail, id, failed).value)
    ensures !Endless(g, mayFail, id)
  {
    var a := OptionOutOfReach(g, mayFail, Hop(g, mayFail, id, false));
    var b := OptionOutOfReach(g, mayFail, Hop(g, mayFail, id, true));
    assert Depth(g, mayFail, id, a + b + 1) < a + b + 1;
  }

  /** An endless id has a hop to an endless id. */
  lemma EndlessHop<P>(g: CompiledGraph<P>, mayFail: set<string>, id: string)
    requires Endless(g, mayFail, id)
    ensures id in g.nodes
    ensures exists failed ::
              Hop(g, mayFail, id, failed).Some? && Endless(g, mayFail, Hop(g, mayFail, id, failed).value)
  {
    assert Depth(g, mayFail, id, 1) == 1;
    if forall failed :: Hop(g, mayFail, id, failed).Some? ==> !Endless(g, mayFail, Hop(g, mayFail, id, failed).value) {
      EndsAfterHops(g, mayFail, id);
    }
  }

  /** The verdict that stays on an endless path: fail unless success does. */
  ghost predicate Verdict<P>(g: CompiledGraph<P>, mayFail: set<string>, id: string) {
    !(Hop(g, mayFail, id, false).Some? && Endless(g, mayFail, Hop(g, mayFail, id, false).value))
  }

  /** Plugins that share the id of the node to run next, and fail by that verdict. */
  ghost function DrivenExec<P>(g: CompiledGraph<P>, mayFail: set<string>, ctx: Context, id: string): Outcome<string> {
    var failed := Verdict(g, mayFail, id);
    var hop := Hop(g, mayFail, id, failed);
    var next := if hop.Some? then hop.value else id;
    if failed then Failed(ctx, GatewayError("", "DRIVEN", ""), next) else Done(ctx, next)
  }

  ghost function Driven<P>(g: CompiledGraph<P>, mayFail: set<string>): Plugins<P, string> {
    Plugins((_, _) => Err(""), _ => "", (_, ctx, id) => DrivenExec(g, mayFail, ctx, id), [])
  }

  lemma DrivenStep<P>(g: CompiledGraph<P>, mayFail: set<string>, id: string, ctx: Context)
    requires Endless(g, mayFail, id)
    ensures var m := StepAt(g, Driven(g, mayFail), id, ctx, id);
            && m.next == Some(m.world) && Endless(g, mayFail, m.world) && FailuresIn([m], mayFail)
  {
    EndlessHop(g, mayFail, id);
  }

  /** The walk from the entry takes every number of steps, failing only where it may. */
  ghost predicate WalksForEver<P, W>(g: CompiledGraph<P>, pl: Plugins<P, W>, mayFail: set<string>, ctx: Context, w: W) {
    forall fuel: nat ::
      |Trail(g, pl, g.entry, ctx, w, fuel)| == fuel && FailuresIn(Trail(g, pl, g.entry, ctx, w, fuel), mayFail)
  }

  lemma {:induction false} DrivenGoesOn<P>(
    g: CompiledGraph<P>, mayFail: set<string>, id: string, ctx: Context, fuel: nat)
    requires Endless(g, mayFail, id)
    ensures var t := Trail(g, Driven(g, mayFail), id, ctx, id, fuel); |t| == fuel && FailuresIn(t, mayFail)
    decreases fuel
  {
    if fuel > 0 {
      var m := StepAt(g, Driven(g, mayFail), id, ctx, id);
      DrivenStep(g, mayFail, id, ctx);
      DrivenGoesOn(g, mayFail, m.world, m.ctx, fuel - 1);
    }
  }

  ghost predicate HasRank<P>(g: CompiledGraph<P>, mayFail: set<string>) {
    exists region, rank :: Ranked(g, region, rank, mayFail)
  }

  lemma RankedIsNotForEver<P, W>(g: CompiledGraph<P>, pl: Plugins<P, W>, mayFail: set<string>, ctx: Context, w: W)
    requires HasRank(g, mayFail)
    ensures !WalksForEver(g, pl, mayFail, ctx, w)
  {
    var region, rank :| Ranked(g, region, rank, mayFail);
    var fuel: nat := |region| + 2;
    if FailuresIn(Trail(g, pl, g.entry, ctx, w, fuel), mayFail) {
      RankedWalkEnds(g, pl, region, rank, mayFail, ctx, w, fuel);
    }
  }

  /** Exact: the graph has a rank iff no plugin behaviour that fails only in `mayFail` walks for ever. */
  lemma WalksEndIff<P(!new)>(g: CompiledGraph<P>, mayFail: set<string>, ctx: Context)
    ensures HasRank(g, mayFail) <==> !exists pl: Plugins<P, string>, w :: WalksForEver(g, pl, mayFail, ctx, w)
  {
    if Endless(g, mayFail, g.entry) {
      forall fuel: nat
        ensures var t := Trail(g, Driven(g, mayFail), g.entry, ctx, g.entry, fuel);
                |t| == fuel && FailuresIn(t, mayFail)
      {
        DrivenGoesOn(g, mayFail, g.entry, ctx, fuel);
      }
      assert WalksForEver(g, Driven(g, mayFail), mayFail, ctx, g.entry);
    } else {
      var region, rank := RankedByDepth(g, mayFail);
    }
    if HasRank(g, mayFail) {
      forall pl: Plugins<P, string>, w ensures !WalksForEver(g, pl, mayFail, ctx, w) {
        RankedIsNotForEver(g, pl, mayFail, ctx, w);
      }
    }
  }

  /** Any walk longer than the number of nodes has visited some node twice. */
  lemma LongWalkRevisits<P, W>(g: CompiledGraph<P>, pl: Plugins<P, W>, ctx: Context, w: W, fuel: nat)
    requires ClosedRegion(g, g.nodes.Keys)
    requires |Trail(g, pl, g.entry, ctx, w, fuel)| > |g.nodes|
    ensures var t := Trail(g, pl, g.entry, ctx, w, fuel);
            exists i, j :: 0 <= i < j < |t| && t[i].nodeId == t[j].nodeId
  {
    var t := Trail(g, pl, g.entry, ctx, w, fuel);
    if forall i, j | 0 <= i < j < |t| :: t[i].nodeId != t[j].nodeId {
      DistinctVisits(t);
      RegionContainsWalk(g, g.nodes.Keys, pl, g.entry, ctx, w, fuel);
      SubsetSize(VisitedIds(t), g.nodes.Keys);
    }
  }
}
