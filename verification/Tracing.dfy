/** What a recording says about the walk it recorded. */
module Tracing {
  import opened Wrappers
  import opened Bytes
  import opened Numbers
  import opened Policy
  import opened Trace
  import opened Engine
  import Utf8

  predicate Stopping(edge: EdgeKind) {
    edge == Terminal || edge == EndOfChain || edge == Unhandled || edge == NodeNotFound
  }

  /** The context a walk has reached after `k` moves. */
  function ContextAfter<W>(ctx0: Context, t: seq<Move<W>>, k: nat): Context
    requires k <= |t|
  {
    if k == 0 then ctx0 else t[k - 1].ctx
  }

  /** The step that a full recording holds at position `i`. */
  function StepOf<W>(ctx0: Context, t: seq<Move<W>>, opts: CaptureOptions, i: nat): NodeStep
    requires i < |t|
  {
    var m := t[i];
    NodeStep(i, m.nodeId, m.nodeType, m.outcome, m.edge, m.next,
             Capture(m.ctx, opts, BodiesOf(ContextAfter(ctx0, t, i))))
  }

  /** One more recorded move: at most one more step, the others as they were. */
  lemma RecordGrows<W>(r: Recording, m: Move<W>)
    ensures var n := Record(r, m.nodeId, m.nodeType, m.outcome, m.edge, m.next, m.ctx);
            && n.opts == r.opts && n.maxSteps == r.maxSteps && n.initial == r.initial
            && (|r.steps| >= r.maxSteps ==> n.steps == r.steps && n.truncated && n.prevBodies == r.prevBodies)
            && (|r.steps| >= r.maxSteps && (r.truncated ==> StepLimit(r.maxSteps) in r.notes) ==>
                  StepLimit(r.maxSteps) in n.notes)
            && (|r.steps| < r.maxSteps ==>
                  && n.truncated == r.truncated && n.prevBodies == BodiesOf(m.ctx)
                  && (StepLimit(r.maxSteps) in n.notes <==> StepLimit(r.maxSteps) in r.notes)
                  && n.steps == r.steps + [NodeStep(|r.steps|, m.nodeId, m.nodeType, m.outcome, m.edge, m.next,
                                                    Capture(m.ctx, r.opts, r.prevBodies))])
  {
  }

  ghost predicate RecordsFirst<W>(
    r: Recording, ctx0: Context, opts: CaptureOptions, max: nat, t: seq<Move<W>>)
  {
    && r.opts == opts && r.maxSteps == max && r.initial == Capture(ctx0, opts, NO_BODIES)
    && |r.steps| == Min(max, |t|)
    && (forall i | 0 <= i < |r.steps| :: r.steps[i] == StepOf(ctx0, t, opts, i))
    && (r.truncated <==> |t| > max)
    && (StepLimit(max) in r.notes <==> |t| > max)
    && (|t| <= max ==> r.prevBodies == BodiesOf(ContextAfter(ctx0, t, |t|)))
  }

  lemma StepOfPrefix<W>(ctx0: Context, t: seq<Move<W>>, n: nat, opts: CaptureOptions, i: nat)
    requires i < n <= |t|
    ensures StepOf(ctx0, t[..n], opts, i) == StepOf(ctx0, t, opts, i)
  {
  }

  lemma StepsOneMore<W>(
    before: seq<NodeStep>, steps: seq<NodeStep>, ctx0: Context, opts: CaptureOptions, t: seq<Move<W>>, n: nat)
    requires n < |t| && |before| <= n && forall i | 0 <= i < |before| :: before[i] == StepOf(ctx0, t[..n], opts, i)
    requires steps == before || (|before| == n && steps == before + [StepOf(ctx0, t, opts, n)])
    ensures forall i | 0 <= i < |steps| :: steps[i] == StepOf(ctx0, t, opts, i)
  {
    forall i | 0 <= i < |steps| ensures steps[i] == StepOf(ctx0, t, opts, i) {
      if i < |before| {
        StepOfPrefix(ctx0, t, n, opts, i);
        assert steps[i] == before[i];
      }
    }
  }

  lemma RecordsOneMore<W>(
    before: Recording, ctx0: Context, opts: CaptureOptions, max: nat, t: seq<Move<W>>, init: seq<Move<W>>, m: Move<W>)
    requires t != [] && init == t[..|t| - 1] && m == t[|t| - 1] && RecordsFirst(before, ctx0, opts, max, init)
    ensures RecordsFirst(Record(before, m.nodeId, m.nodeType, m.outcome, m.edge, m.next, m.ctx), ctx0, opts, max, t)
  {
    var r := Record(before, m.nodeId, m.nodeType, m.outcome, m.edge, m.next, m.ctx);
    RecordGrows(before, m);
    assert ContextAfter(ctx0, init, |init|) == ContextAfter(ctx0, t, |init|);
    StepsOneMore(before.steps, r.steps, ctx0, opts, t, |init|);
  }

  lemma {:induction false} RecordingOfTrail<W>(ctx0: Context, opts: CaptureOptions, max: nat, t: seq<Move<W>>)
    ensures RecordsFirst(RecordTrail(StartRecording(ctx0, opts, max), t), ctx0, opts, max, t)
  {
    if t != [] {
      var n := |t| - 1;
      RecordingOfTrail(ctx0, opts, max, t[..n]);
      RecordsOneMore(RecordTrail(StartRecording(ctx0, opts, max), t[..n]), ctx0, opts, max, t, t[..n], t[n]);
    }
  }

  /** Consecutive moves are linked, and exactly the halting move has a stopping edge. */
  ghost predicate Linked<W>(t: seq<Move<W>>) {
    && (forall i | 0 <= i < |t| :: Stopping(t[i].edge) <==> t[i].next.None?)
    && (forall i | 0 <= i < |t| - 1 :: t[i].next == Some(t[i + 1].nodeId))
  }

  lemma LinkedCons<W>(m: Move<W>, rest: seq<Move<W>>)
    requires Linked(rest) && (Stopping(m.edge) <==> m.next.None?)
    requires rest != [] ==> m.next == Some(rest[0].nodeId)
    ensures Linked([m] + rest)
  {
    var t := [m] + rest;
    forall i | 0 <= i < |t| - 1 ensures t[i].next == Some(t[i + 1].nodeId) {
      if i > 0 {
        assert rest[i - 1].next == Some(rest[i - 1 + 1].nodeId);
      }
    }
  }

  lemma StepIsLinked<P, W>(g: CompiledGraph<P>, pl: Plugins<P, W>, id: string, ctx: Context, w: W)
    ensures var m := StepAt(g, pl, id, ctx, w); m.nodeId == id && (Stopping(m.edge) <==> m.next.None?)
  {
  }

  lemma {:induction false} TrailIsLinked<P, W>(
    g: CompiledGraph<P>, pl: Plugins<P, W>, id: string, ctx: Context, w: W, fuel: nat)
    ensures var t := Trail(g, pl, id, ctx, w, fuel);
            (t != [] ==> t[0].nodeId == id) && Linked(t)
    decreases fuel
  {
    if fuel > 0 {
      var m := StepAt(g, pl, id, ctx, w);
      var rest := if m.next.None? then [] else Trail(g, pl, m.next.value, m.ctx, m.world, fuel - 1);
      TrailCons(g, pl, id, ctx, w, fuel, m, rest);
      StepIsLinked(g, pl, id, ctx, w);
      if m.next.Some? {
        TrailIsLinked(g, pl, m.next.value, m.ctx, m.world, fuel - 1);
      }
      LinkedCons(m, rest);
    }
  }

  /** Step `i` shows the `i`-th move of the walk and the state it left. */
  ghost predicate Shows<W>(step: NodeStep, m: Move<W>, i: nat) {
    && step.index == i && step.nodeId == m.nodeId && step.nodeType == m.nodeType
    && step.outcome == m.outcome && step.edge == m.edge && step.nextNodeId == m.next
    && step.after.errors == m.ctx.errors && step.after.response.status == m.ctx.response.status
  }

  lemma RecordingShowsWalk<W>(ctx0: Context, opts: CaptureOptions, max: nat, t: seq<Move<W>>)
    ensures var steps := RecordTrail(StartRecording(ctx0, opts, max), t).steps;
            |steps| == Min(max, |t|) && forall i | 0 <= i < |steps| :: Shows(steps[i], t[i], i)
  {
    RecordingOfTrail(ctx0, opts, max, t);
    var steps := RecordTrail(StartRecording(ctx0, opts, max), t).steps;
    forall i | 0 <= i < |steps| ensures Shows(steps[i], t[i], i) {
      assert steps[i] == StepOf(ctx0, t, opts, i);
    }
  }

  /** Tracing refines the walk: the recorded steps are its first `max` moves, numbered from 0, each naming
      the node that ran next, and a stopping edge shows on the walk's last move and nowhere else. */
  lemma RecordingRefinesWalk<P, W>(
    g: CompiledGraph<P>, pl: Plugins<P, W>, ctx0: Context, w0: W, fuel: nat, opts: CaptureOptions, max: nat)
    ensures var t := Trail(g, pl, g.entry, ctx0, w0, fuel);
            var steps := RecordTrail(StartRecording(ctx0, opts, max), t).steps;
            && |steps| == Min(max, |t|)
            && (forall i | 0 <= i < |steps| :: Shows(steps[i], t[i], i))
            && (forall i | 0 <= i < |steps| - 1 :: steps[i].nextNodeId == Some(steps[i + 1].nodeId))
            && (forall i | 0 <= i < |steps| :: Stopping(steps[i].edge) <==> i == |t| - 1 && Halted(t))
  {
    var t := Trail(g, pl, g.entry, ctx0, w0, fuel);
    var steps := RecordTrail(StartRecording(ctx0, opts, max), t).steps;
    RecordingShowsWalk(ctx0, opts, max, t);
    TrailIsLinked(g, pl, g.entry, ctx0, w0, fuel);
    forall i | 0 <= i < |steps| - 1 ensures steps[i].nextNodeId == Some(steps[i + 1].nodeId) {
      assert Shows(steps[i], t[i], i) && Shows(steps[i + 1], t[i + 1], i + 1);
    }
    forall i | 0 <= i < |steps| ensures Stopping(steps[i].edge) <==> i == |t| - 1 && Halted(t) {
      assert Shows(steps[i], t[i], i) && (Stopping(t[i].edge) <==> t[i].next.None?);
      if i < |t| - 1 {
        assert t[i].next == Some(t[i + 1].nodeId);
      }
    }
  }

  // ---- Errors ----

  ghost predicate LeavesErrorsAlone<P(!new), W(!new)>(pl: Plugins<P, W>) {
    forall p, ctx, w :: pl.exec(p, ctx, w).ctx.errors == ctx.errors
  }

  /** The errors that a walk's failed nodes stand for, in order. A missing node is reported as an error
      outcome but appends nothing. */
  function ErrorsOf<W>(t: seq<Move<W>>): seq<GatewayError> {
    if t == [] then []
    else
      (if t[0].outcome.Errored? && t[0].edge != NodeNotFound
       then [GatewayError(t[0].nodeId, t[0].outcome.code, t[0].outcome.message)] else [])
      + ErrorsOf(t[1..])
  }

  lemma StepErrors<P(!new), W(!new)>(g: CompiledGraph<P>, pl: Plugins<P, W>, id: string, ctx: Context, w: W)
    requires LeavesErrorsAlone(pl)
    ensures var m := StepAt(g, pl, id, ctx, w);
            m.ctx.errors == ctx.errors + ErrorsOf([m])
  {
    if id in g.nodes {
      assert pl.exec(g.nodes[id], ctx, w).ctx.errors == ctx.errors;
    }
  }

  /** Every move appends the errors it stands for to those of the move before. */
  ghost predicate AppendsItsErrors<W>(ctx0: Context, t: seq<Move<W>>)
    decreases t
  {
    t == [] || (t[0].ctx.errors == ctx0.errors + ErrorsOf([t[0]]) && AppendsItsErrors(t[0].ctx, t[1..]))
  }

  lemma {:induction false} TrailAppends<P(!new), W(!new)>(
    g: CompiledGraph<P>, pl: Plugins<P, W>, id: string, ctx: Context, w: W, fuel: nat)
    requires LeavesErrorsAlone(pl)
    ensures AppendsItsErrors(ctx, Trail(g, pl, id, ctx, w, fuel))
    decreases fuel
  {
    if fuel > 0 {
      var m := StepAt(g, pl, id, ctx, w);
      StepErrors(g, pl, id, ctx, w);
      TrailHead(g, pl, id, ctx, w, fuel);
      if m.next.Some? {
        TrailAppends(g, pl, m.next.value, m.ctx, m.world, fuel - 1);
      }
    }
  }

  lemma ErrorsOfCons<W>(t: seq<Move<W>>)
    requires t != []
    ensures ErrorsOf(t) == ErrorsOf([t[0]]) + ErrorsOf(t[1..])
  {
    assert [t[0]][1..] == [];
  }

  lemma Associate<T>(a: seq<T>, b: seq<T>, c: seq<T>)
    ensures (a + b) + c == a + (b + c)
  {
  }

  lemma {:induction false} ErrorsAddUp<W>(ctx0: Context, t: seq<Move<W>>)
    requires AppendsItsErrors(ctx0, t)
    ensures FinalContext(ctx0, t).errors == ctx0.errors + ErrorsOf(t)
    decreases t
  {
    if t != [] {
      ErrorsOfCons(t);
      ErrorsAddUp(t[0].ctx, t[1..]);
      Associate(ctx0.errors, ErrorsOf([t[0]]), ErrorsOf(t[1..]));
    }
  }

  /** When plugins leave `errors` alone, the final error list is the initial one followed by exactly one
      entry per failed node, tagged with its id, in the order of the walk. */
  lemma ErrorsMatchOutcomes<P(!new), W(!new)>(
    g: CompiledGraph<P>, pl: Plugins<P, W>, ctx: Context, w: W, fuel: nat)
    requires LeavesErrorsAlone(pl)
    ensures var t := Trail(g, pl, g.entry, ctx, w, fuel);
            FinalContext(ctx, t).errors == ctx.errors + ErrorsOf(t)
  {
    TrailAppends(g, pl, g.entry, ctx, w, fuel);
    ErrorsAddUp(ctx, Trail(g, pl, g.entry, ctx, w, fuel));
  }

  // ---- Bodies ----

  /** Follows "same as before" marks back to the last text that was stored. */
  function Rebuild(captures: seq<BodyCapture>): Option<Str> {
    if captures == [] then None
    else if captures[|captures| - 1].sameAsBefore then Rebuild(captures[..|captures| - 1])
    else captures[|captures| - 1].text
  }

  predicate Fits(body: Str, opts: CaptureOptions) {
    Utf8.IsUtf8(body) && |body| <= opts.maxBodyBytes
  }

  /** Captures of consecutive bodies, each compared with the one before it. */
  function Captures(bodies: seq<Str>, opts: CaptureOptions): seq<BodyCapture> {
    seq(|bodies|, i requires 0 <= i < |bodies| =>
      CaptureBody(bodies[i], if i == 0 then None else Some(bodies[i - 1]), opts))
  }

  lemma CaptureOfFitting(body: Str, prev: Option<Str>, opts: CaptureOptions)
    requires opts.captureBodies && Fits(body, opts)
    ensures var c := CaptureBody(body, prev, opts);
            (c.sameAsBefore <==> prev == Some(body)) && (!c.sameAsBefore ==> c.text == Some(body))
  {
  }

  lemma CapturesSnoc(bodies: seq<Str>, opts: CaptureOptions)
    requires bodies != []
    ensures var n, cs := |bodies| - 1, Captures(bodies, opts);
            && |cs| == n + 1 && cs[..n] == Captures(bodies[..n], opts)
            && cs[n] == CaptureBody(bodies[n], if n == 0 then None else Some(bodies[n - 1]), opts)
  {
  }

  /** The last of the captures: the body itself, or a mark that it is the one before. */
  lemma LastCapture(bodies: seq<Str>, opts: CaptureOptions, cs: seq<BodyCapture>)
    requires bodies != [] && opts.captureBodies && Fits(bodies[|bodies| - 1], opts) && cs == Captures(bodies, opts)
    ensures var n := |bodies| - 1;
            && |cs| == n + 1 && cs[..n] == Captures(bodies[..n], opts)
            && (cs[n].sameAsBefore <==> n > 0 && bodies[n - 1] == bodies[n])
            && (!cs[n].sameAsBefore ==> cs[n].text == Some(bodies[n]))
  {
    var n := |bodies| - 1;
    CaptureOfFitting(bodies[n], if n == 0 then None else Some(bodies[n - 1]), opts);
    CapturesSnoc(bodies, opts);
  }

  lemma {:induction false} RebuildsLast(bodies: seq<Str>, opts: CaptureOptions, cs: seq<BodyCapture>)
    requires bodies != [] && opts.captureBodies && forall b | b in bodies :: Fits(b, opts)
    requires cs == Captures(bodies, opts)
    ensures Rebuild(cs) == Some(bodies[|bodies| - 1])
    decreases |bodies|
  {
    var n := |bodies| - 1;
    assert bodies[n] in bodies;
    LastCapture(bodies, opts, cs);
    if cs[n].sameAsBefore {
      assert forall b | b in bodies[..n] :: b in bodies;
      RebuildsLast(bodies[..n], opts, cs[..n]);
    }
  }

  function RequestBodies<W>(ctx0: Context, t: seq<Move<W>>, k: nat): seq<Str>
    requires k <= |t|
  {
    seq(k + 1, i requires 0 <= i <= k => ContextAfter(ctx0, t, i).request.body)
  }

  function ResponseBodies<W>(ctx0: Context, t: seq<Move<W>>, k: nat): seq<Str>
    requires k <= |t|
  {
    seq(k + 1, i requires 0 <= i <= k => ContextAfter(ctx0, t, i).response.body)
  }

  function RecordedRequestBodies(r: Recording, k: nat): seq<BodyCapture>
    requires k <= |r.steps|
  {
    [r.initial.request.body] + seq(k, i requires 0 <= i < k => r.steps[i].after.request.body)
  }

  function RecordedResponseBodies(r: Recording, k: nat): seq<BodyCapture>
    requires k <= |r.steps|
  {
    [r.initial.response.body] + seq(k, i requires 0 <= i < k => r.steps[i].after.response.body)
  }

  lemma StepBodies<W>(ctx0: Context, t: seq<Move<W>>, opts: CaptureOptions, i: nat)
    requires i < |t|
    ensures var after, prev := StepOf(ctx0, t, opts, i).after, ContextAfter(ctx0, t, i);
            && after.request.body == CaptureBody(t[i].ctx.request.body, Some(prev.request.body), opts)
            && after.response.body == CaptureBody(t[i].ctx.response.body, Some(prev.response.body), opts)
  {
  }

  ghost predicate RequestBodiesCaptured<W>(r: Recording, ctx0: Context, t: seq<Move<W>>, opts: CaptureOptions, k: nat)
    requires k <= |t| && k <= |r.steps|
  {
    && r.initial.request.body == CaptureBody(ctx0.request.body, None, opts)
    && forall i {:trigger r.steps[i]} | 0 <= i < k :: r.steps[i].after.request.body
         == CaptureBody(t[i].ctx.request.body, Some(ContextAfter(ctx0, t, i).request.body), opts)
  }

  ghost predicate ResponseBodiesCaptured<W>(r: Recording, ctx0: Context, t: seq<Move<W>>, opts: CaptureOptions, k: nat)
    requires k <= |t| && k <= |r.steps|
  {
    && r.initial.response.body == CaptureBody(ctx0.response.body, None, opts)
    && forall i {:trigger r.steps[i]} | 0 <= i < k :: r.steps[i].after.response.body
         == CaptureBody(t[i].ctx.response.body, Some(ContextAfter(ctx0, t, i).response.body), opts)
  }

  lemma RecordedAreCaptures<W>(ctx0: Context, t: seq<Move<W>>, opts: CaptureOptions, max: nat, k: nat)
    requires k <= Min(max, |t|)
    ensures var r := RecordTrail(StartRecording(ctx0, opts, max), t);
            k <= |r.steps| && RequestBodiesCaptured(r, ctx0, t, opts, k) && ResponseBodiesCaptured(r, ctx0, t, opts, k)
  {
    RecordingOfTrail(ctx0, opts, max, t);
    var r := RecordTrail(StartRecording(ctx0, opts, max), t);
    forall i | 0 <= i < k
      ensures r.steps[i] == StepOf(ctx0, t, opts, i)
      ensures r.steps[i].after.request.body
           == CaptureBody(t[i].ctx.request.body, Some(ContextAfter(ctx0, t, i).request.body), opts)
      ensures r.steps[i].after.response.body
           == CaptureBody(t[i].ctx.response.body, Some(ContextAfter(ctx0, t, i).response.body), opts)
    {
      StepBodies(ctx0, t, opts, i);
    }
  }

  lemma CapturesByElement(recorded: seq<BodyCapture>, bodies: seq<Str>, opts: CaptureOptions)
    requires |recorded| == |bodies| > 0 && recorded[0] == CaptureBody(bodies[0], None, opts)
    requires forall i | 1 <= i < |bodies| :: recorded[i] == CaptureBody(bodies[i], Some(bodies[i - 1]), opts)
    ensures recorded == Captures(bodies, opts)
  {
  }

  lemma RequestsAreCaptures<W>(r: Recording, ctx0: Context, t: seq<Move<W>>, opts: CaptureOptions, k: nat)
    requires k <= |t| && k <= |r.steps| && RequestBodiesCaptured(r, ctx0, t, opts, k)
    ensures RecordedRequestBodies(r, k) == Captures(RequestBodies(ctx0, t, k), opts)
  {
    var recorded, bodies := RecordedRequestBodies(r, k), RequestBodies(ctx0, t, k);
    forall i | 1 <= i < |bodies| ensures recorded[i] == CaptureBody(bodies[i], Some(bodies[i - 1]), opts) {
      assert recorded[i] == r.steps[i - 1].after.request.body;
    }
    CapturesByElement(recorded, bodies, opts);
  }

  lemma RequestBodiesRebuilt<W>(r: Recording, ctx0: Context, t: seq<Move<W>>, opts: CaptureOptions, k: nat)
    requires opts.captureBodies && k <= |t| && k <= |r.steps| && RequestBodiesCaptured(r, ctx0, t, opts, k)
    requires forall b | b in RequestBodies(ctx0, t, k) :: Fits(b, opts)
    ensures Rebuild(RecordedRequestBodies(r, k)) == Some(ContextAfter(ctx0, t, k).request.body)
  {
    RequestsAreCaptures(r, ctx0, t, opts, k);
    RebuildsLast(RequestBodies(ctx0, t, k), opts, Captures(RequestBodies(ctx0, t, k), opts));
  }

  lemma ResponsesAreCaptures<W>(r: Recording, ctx0: Context, t: seq<Move<W>>, opts: CaptureOptions, k: nat)
    requires k <= |t| && k <= |r.steps| && ResponseBodiesCaptured(r, ctx0, t, opts, k)
    ensures RecordedResponseBodies(r, k) == Captures(ResponseBodies(ctx0, t, k), opts)
  {
    var recorded, bodies := RecordedResponseBodies(r, k), ResponseBodies(ctx0, t, k);
    forall i | 1 <= i < |bodies| ensures recorded[i] == CaptureBody(bodies[i], Some(bodies[i - 1]), opts) {
      assert recorded[i] == r.steps[i - 1].after.response.body;
    }
    CapturesByElement(recorded, bodies, opts);
  }

  lemma ResponseBodiesRebuilt<W>(r: Recording, ctx0: Context, t: seq<Move<W>>, opts: CaptureOptions, k: nat)
    requires opts.captureBodies && k <= |t| && k <= |r.steps| && ResponseBodiesCaptured(r, ctx0, t, opts, k)
    requires forall b | b in ResponseBodies(ctx0, t, k) :: Fits(b, opts)
    ensures Rebuild(RecordedResponseBodies(r, k)) == Some(ContextAfter(ctx0, t, k).response.body)
  {
    ResponsesAreCaptures(r, ctx0, t, opts, k);
    RebuildsLast(ResponseBodies(ctx0, t, k), opts, Captures(ResponseBodies(ctx0, t, k), opts));
  }

  /** Following the marks back rebuilds the exact request and response body after every recorded step. */
  lemma BodiesAreRecoverable<W>(ctx0: Context, t: seq<Move<W>>, opts: CaptureOptions, max: nat, k: nat)
    requires opts.captureBodies && k <= Min(max, |t|)
    requires forall b | b in RequestBodies(ctx0, t, k) :: Fits(b, opts)
    requires forall b | b in ResponseBodies(ctx0, t, k) :: Fits(b, opts)
    ensures var r := RecordTrail(StartRecording(ctx0, opts, max), t);
            && k <= |r.steps|
            && Rebuild(RecordedRequestBodies(r, k)) == Some(ContextAfter(ctx0, t, k).request.body)
            && Rebuild(RecordedResponseBodies(r, k)) == Some(ContextAfter(ctx0, t, k).response.body)
  {
    RecordedAreCaptures(ctx0, t, opts, max, k);
    var r := RecordTrail(StartRecording(ctx0, opts, max), t);
    RequestBodiesRebuilt(r, ctx0, t, opts, k);
    ResponseBodiesRebuilt(r, ctx0, t, opts, k);
  }
}
