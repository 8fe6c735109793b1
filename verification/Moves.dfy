/** What each move of a walk does, in the fields of the context and the tables of the graph. */
module Moves {
  import opened Wrappers
  import opened Bytes
  import opened Policy
  import opened Trace
  import opened Engine
  import Utf8

  /** The generic 500: status, body and content type are replaced, every other header is kept. */
  ghost predicate IsInternalError(before: Response, after: Response, body: Str) {
    && after.status == 500 && after.body == body
    && "content-type" in after.headers && after.headers["content-type"] == ["application/json"]
    && after.headers.Keys == before.headers.Keys + {"content-type"}
    && forall h | h in before.headers && h != "content-type" :: after.headers[h] == before.headers[h]
  }

  /** Node `id` does not exist: only the status and the body of the response change. */
  ghost predicate IsMissing<W>(m: Move<W>, ctx: Context, w: W) {
    && m.edge == NodeNotFound && m.next == None && m.world == w
    && m.outcome == Errored("NODE_NOT_FOUND", "node '" + m.nodeId + "' not found")
    && m.ctx.request == ctx.request && m.ctx.message == ctx.message && m.ctx.errors == ctx.errors
    && m.ctx.response.status == 500 && m.ctx.response.headers == ctx.response.headers
    && m.ctx.response.body == Utf8.OfString("Graph error: node '" + m.nodeId + "' not found")
  }

  /** The plugin succeeded: the context is the plugin's, and the success edge is followed from any node but a
      terminal one. */
  ghost predicate IsSuccess<P, W>(g: CompiledGraph<P>, m: Move<W>, c: Context, w: W) {
    && m.outcome == Succeeded && m.ctx == c && m.world == w
    && if m.nodeId in g.terminals then m.edge == Terminal && m.next == None
       else if m.nodeId in g.successEdges then m.edge == Success && m.next == Some(g.successEdges[m.nodeId])
       else m.edge == EndOfChain && m.next == None
  }

  /** The plugin failed: its error is appended under the id of the node; the node's own error edge comes first,
      then the catch-all, and only without either is the plugin's response replaced. */
  ghost predicate IsFailure<P, W>(g: CompiledGraph<P>, body: Str, m: Move<W>, c: Context, e: GatewayError, w: W) {
    && m.outcome == Errored(e.code, e.message) && m.world == w
    && m.ctx.request == c.request && m.ctx.message == c.message
    && m.ctx.errors == c.errors + [GatewayError(m.nodeId, e.code, e.message)]
    && if m.nodeId in g.errorEdges then
         m.edge == Error && m.next == Some(g.errorEdges[m.nodeId]) && m.ctx.response == c.response
       else if g.catchAll.Some? then m.edge == CatchAll && m.next == g.catchAll && m.ctx.response == c.response
       else m.edge == Unhandled && m.next == None && IsInternalError(c.response, m.ctx.response, body)
  }

  /** The move that runs node `m.nodeId` on `ctx` and `w`. */
  ghost predicate IsMove<P, W>(g: CompiledGraph<P>, pl: Plugins<P, W>, m: Move<W>, ctx: Context, w: W) {
    if m.nodeId !in g.nodes then m.nodeType == "<missing>" && IsMissing(m, ctx, w)
    else
      && m.nodeType == pl.kindOf(g.nodes[m.nodeId])
      && match pl.exec(g.nodes[m.nodeId], ctx, w)
         case Done(c, w') => IsSuccess(g, m, c, w')
         case Failed(c, e, w') => IsFailure(g, pl.unhandledBody, m, c, e, w')
  }

  /** Moves from node `id`, each one passing a test: the first one runs `id` on `ctx` and `w`, every other one the
      node that the one before chose, on what that one left. */
  ghost predicate Chained<W>(
    test: (Move<W>, Context, W) -> bool, t: seq<Move<W>>, id: string, ctx: Context, w: W)
  {
    && (t != [] ==> t[0].nodeId == id && test(t[0], ctx, w))
    && forall j, k {:trigger t[j], t[k]} | 0 <= j < k == j + 1 < |t| ::
         t[j].next == Some(t[k].nodeId) && test(t[k], t[j].ctx, t[j].world)
  }

  ghost function MoveTest<P, W>(g: CompiledGraph<P>, pl: Plugins<P, W>): (Move<W>, Context, W) -> bool {
    (m, ctx, w) => IsMove(g, pl, m, ctx, w)
  }

  ghost predicate AreMoves<P, W>(
    g: CompiledGraph<P>, pl: Plugins<P, W>, t: seq<Move<W>>, id: string, ctx: Context, w: W)
  {
    Chained(MoveTest(g, pl), t, id, ctx, w)
  }

  lemma StepIsMove<P, W>(g: CompiledGraph<P>, pl: Plugins<P, W>, id: string, ctx: Context, w: W)
    ensures StepAt(g, pl, id, ctx, w).nodeId == id && IsMove(g, pl, StepAt(g, pl, id, ctx, w), ctx, w)
  {
  }

  lemma ChainFollows<W>(
    test: (Move<W>, Context, W) -> bool, m: Move<W>, rest: seq<Move<W>>, t: seq<Move<W>>, ctx: Context, w: W)
    requires test(m, ctx, w) && t == [m] + rest
    requires if m.next.None? then rest == [] else Chained(test, rest, m.next.value, m.ctx, m.world)
    ensures Chained(test, t, m.nodeId, ctx, w)
  {
    forall j, k {:trigger t[j], t[k]} | 0 <= j < k == j + 1 < |t|
      ensures t[j].next == Some(t[k].nodeId) && test(t[k], t[j].ctx, t[j].world)
    {
      assert t[k] == rest[j] && (j > 0 ==> t[j] == rest[j - 1]);
    }
  }

  // The same walk with the step left open, to reason about its shape alone.

  ghost function Steps<P, W>(g: CompiledGraph<P>, pl: Plugins<P, W>): (string, Context, W) -> Move<W> {
    (id, ctx, w) => StepAt(g, pl, id, ctx, w)
  }

  ghost function Walked<W>(
    step: (string, Context, W) -> Move<W>, id: string, ctx: Context, w: W, fuel: nat): seq<Move<W>>
    decreases fuel
  {
    if fuel == 0 then []
    else
      var m := step(id, ctx, w);
      if m.next.None? then [m] else [m] + Walked(step, m.next.value, m.ctx, m.world, fuel - 1)
  }

  lemma {:induction false} TrailIsWalked<P, W>(
    g: CompiledGraph<P>, pl: Plugins<P, W>, step: (string, Context, W) -> Move<W>, id: string, ctx: Context, w: W,
    fuel: nat)
    requires step == Steps(g, pl)
    ensures Trail(g, pl, id, ctx, w, fuel) == Walked(step, id, ctx, w, fuel)
    decreases fuel
  {
    if fuel > 0 {
      var m := step(id, ctx, w);
      if m.next.Some? {
        TrailIsWalked(g, pl, step, m.next.value, m.ctx, m.world, fuel - 1);
      }
    }
  }

  lemma {:induction false} WalkedIsChained<W(!new)>(
    step: (string, Context, W) -> Move<W>, test: (Move<W>, Context, W) -> bool, id: string, ctx: Context, w: W,
    fuel: nat)
    requires forall i: string, c: Context, v: W {:trigger step(i, c, v)} ::
               step(i, c, v).nodeId == i && test(step(i, c, v), c, v)
    ensures Chained(test, Walked(step, id, ctx, w, fuel), id, ctx, w)
    decreases fuel
  {
    if fuel > 0 {
      var m := step(id, ctx, w);
      var rest := if m.next.None? then [] else Walked(step, m.next.value, m.ctx, m.world, fuel - 1);
      if m.next.Some? {
        WalkedIsChained(step, test, m.next.value, m.ctx, m.world, fuel - 1);
      }
      ChainFollows(test, m, rest, [m] + rest, ctx, w);
    }
  }

  /** Every walk, whatever its length: each move is what the tables and the plugin's answer say. */
  lemma WalksAreMoves<P, W(!new)>(
    g: CompiledGraph<P>, pl: Plugins<P, W>, id: string, ctx: Context, w: W, fuel: nat)
    ensures AreMoves(g, pl, Trail(g, pl, id, ctx, w, fuel), id, ctx, w)
  {
    var step, test := Steps(g, pl), MoveTest(g, pl);
    TrailIsWalked(g, pl, step, id, ctx, w, fuel);
    forall i: string, c: Context, v: W ensures step(i, c, v).nodeId == i && test(step(i, c, v), c, v) {
      StepIsMove(g, pl, i, c, v);
    }
    WalkedIsChained(step, test, id, ctx, w, fuel);
  }

  lemma {:induction false} ShortWalkEnds<W>(
    step: (string, Context, W) -> Move<W>, id: string, ctx: Context, w: W, fuel: nat)
    requires |Walked(step, id, ctx, w, fuel)| < fuel
    ensures var t := Walked(step, id, ctx, w, fuel); t != [] && t[|t| - 1].next == None
    decreases fuel
  {
    var m := step(id, ctx, w);
    if m.next.Some? {
      ShortWalkEnds(step, m.next.value, m.ctx, m.world, fuel - 1);
    }
  }

  /** ... and it breaks off only where a move leads nowhere. */
  lemma ShortWalksHalt<P, W>(g: CompiledGraph<P>, pl: Plugins<P, W>, id: string, ctx: Context, w: W, fuel: nat)
    requires |Trail(g, pl, id, ctx, w, fuel)| < fuel
    ensures var t := Trail(g, pl, id, ctx, w, fuel); t != [] && t[|t| - 1].next == None
  {
    TrailIsWalked(g, pl, Steps(g, pl), id, ctx, w, fuel);
    ShortWalkEnds(Steps(g, pl), id, ctx, w, fuel);
  }

  /** The context and the world that the last move of a walk started from. */
  function Before<W>(t: seq<Move<W>>, ctx: Context, w: W): (Context, W) {
    if |t| < 2 then (ctx, w) else (t[|t| - 2].ctx, t[|t| - 2].world)
  }

  /** A walk that ends on a failure nobody handles delivers the generic 500: the plugin's response is gone, but
      for its headers; the request, the message and the errors so far are the plugin's. */
  lemma UnhandledFailureDelivers500<P, W(!new)>(
    g: CompiledGraph<P>, pl: Plugins<P, W>, id: string, ctx: Context, w: W, fuel: nat)
    requires var t := Trail(g, pl, id, ctx, w, fuel); t != [] && t[|t| - 1].edge == Unhandled
    ensures var t := Trail(g, pl, id, ctx, w, fuel);
            var node, (c0, w0), final := t[|t| - 1].nodeId, Before(t, ctx, w), FinalContext(ctx, t);
            && Halted(t)
            && node in g.nodes && node !in g.errorEdges && g.catchAll == None
            && match pl.exec(g.nodes[node], c0, w0)
               case Done(_, _) => false
               case Failed(c, e, w') =>
                 && final.response.status == 500
                 && final.response.body == pl.unhandledBody
                 && final.response.headers == c.response.headers["content-type" := ["application/json"]]
                 && final.request == c.request && final.message == c.message
                 && final.errors == c.errors + [GatewayError(node, e.code, e.message)]
                 && FinalWorld(w, t) == w'
  {
    WalksAreMoves(g, pl, id, ctx, w, fuel);
    var t := Trail(g, pl, id, ctx, w, fuel);
    UnhandledMove(g, pl, t[|t| - 1], Before(t, ctx, w).0, Before(t, ctx, w).1);
  }

  lemma UnhandledMove<P, W>(g: CompiledGraph<P>, pl: Plugins<P, W>, m: Move<W>, ctx: Context, w: W)
    requires IsMove(g, pl, m, ctx, w) && m.edge == Unhandled
    ensures m.nodeId in g.nodes && m.nodeId !in g.errorEdges && g.catchAll == None && m.next == None
    ensures match pl.exec(g.nodes[m.nodeId], ctx, w)
            case Done(_, _) => false
            case Failed(c, e, w') =>
              && m.ctx.response.status == 500
              && m.ctx.response.body == pl.unhandledBody
              && m.ctx.response.headers == c.response.headers["content-type" := ["application/json"]]
              && m.ctx.request == c.request && m.ctx.message == c.message
              && m.ctx.errors == c.errors + [GatewayError(m.nodeId, e.code, e.message)]
              && m.world == w'
  {
    match pl.exec(g.nodes[m.nodeId], ctx, w)
    case Done(_, _) =>
    case Failed(c, _, _) =>
      assert m.ctx.response.headers == c.response.headers["content-type" := ["application/json"]];
  }

  /** A walk that runs into a missing node ends there, with everything but status and body as it was. */
  lemma MissingNodeDelivers500<P, W(!new)>(
    g: CompiledGraph<P>, pl: Plugins<P, W>, id: string, ctx: Context, w: W, fuel: nat)
    requires var t := Trail(g, pl, id, ctx, w, fuel); t != [] && t[|t| - 1].edge == NodeNotFound
    ensures var t := Trail(g, pl, id, ctx, w, fuel);
            var node, (c, w0), final := t[|t| - 1].nodeId, Before(t, ctx, w), FinalContext(ctx, t);
            && Halted(t)
            && node !in g.nodes
            && final.response.status == 500 && final.response.headers == c.response.headers
            && final.response.body == Utf8.OfString("Graph error: node '" + node + "' not found")
            && final.request == c.request && final.message == c.message && final.errors == c.errors
            && FinalWorld(w, t) == w0
  {
    WalksAreMoves(g, pl, id, ctx, w, fuel);
    var t := Trail(g, pl, id, ctx, w, fuel);
    MissingMove(g, pl, t[|t| - 1], Before(t, ctx, w).0, Before(t, ctx, w).1);
  }

  lemma MissingMove<P, W>(g: CompiledGraph<P>, pl: Plugins<P, W>, m: Move<W>, ctx: Context, w: W)
    requires IsMove(g, pl, m, ctx, w) && m.edge == NodeNotFound
    ensures m.nodeId !in g.nodes && IsMissing(m, ctx, w)
  {
  }
}
