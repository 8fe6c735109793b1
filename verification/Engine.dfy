/** Policy compilation and graph execution. */
module Engine {
  import opened Wrappers
  import opened Bytes
  import opened Policy
  import opened Trace
  import Utf8

  // ---- Plugins: arbitrary behaviour over an arbitrary shared world ----

  datatype Outcome<W> = Done(ctx: Context, world: W) | Failed(ctx: Context, error: GatewayError, world: W)

  /** The plugin registry: `create` instantiates a node (environment interpolation included), `exec` runs
      an instance. `W` is whatever state plugins share or keep between requests. `unhandledBody` is the fixed
      JSON text of the generic 500, whatever it says. */
  datatype Plugins<!P, !W> = Plugins(
    create: (string, Config) -> Result<P, string>,
    kindOf: P -> string,
    exec: (P, Context, W) -> Outcome<W>,
    unhandledBody: Str)

  // ---- Compilation ----

  datatype CompiledGraph<+P> = CompiledGraph(
    nodes: map<string, P>,
    successEdges: map<string, string>,
    errorEdges: map<string, string>,
    entry: string,
    terminals: set<string>,
    catchAll: Option<string>,
    policyName: string)

  datatype CompileError = PluginError(message: string) | NoListener | UnknownPort(port: string)

  /** The node index after the nodes of a list were inserted one by one, or the first plugin error. */
  function IndexNodes<P, W>(nodes: seq<NodeConfig>, pl: Plugins<P, W>): Result<map<string, P>, CompileError> {
    if nodes == [] then Ok(map[])
    else
      var n := nodes[|nodes| - 1];
      match IndexNodes(nodes[..|nodes| - 1], pl)
      case Err(e) => Err(e)
      case Ok(m) =>
        match pl.create(n.nodeType, n.config)
        case Err(e) => Err(PluginError(e))
        case Ok(p) => Ok(m[n.id := p])
  }

  function ListenerId(nodes: seq<NodeConfig>): Option<string> {
    if nodes == [] then None
    else if nodes[|nodes| - 1].nodeType == "listener" then Some(nodes[|nodes| - 1].id)
    else ListenerId(nodes[..|nodes| - 1])
  }

  predicate IsSuccessPort(port: string) { port == "success" || port == "out" }

  /** The two edge indexes after the edges of a list were inserted one by one, or the first bad port. */
  function IndexEdges(edges: seq<EdgeConfig>): Result<(map<string, string>, map<string, string>), CompileError> {
    if edges == [] then Ok((map[], map[]))
    else
      match IndexEdges(edges[..|edges| - 1])
      case Err(e) => Err(e)
      case Ok((succ, errs)) =>
        var edge := edges[|edges| - 1];
        var from, to := ParseEdgeEndpoint(edge.source), ParseEdgeEndpoint(edge.target);
        if IsSuccessPort(from.port) then Ok((succ[from.node := to.node], errs))
        else if from.port == "error" then Ok((succ, errs[from.node := to.node]))
        else Err(UnknownPort(from.port))
  }

  function Compile<P, W>(policy: PolicyConfig, pl: Plugins<P, W>): Result<CompiledGraph<P>, CompileError> {
    match (IndexNodes(policy.nodes, pl), ListenerId(policy.nodes), IndexEdges(policy.edges))
    case (Err(e), _, _) => Err(e)
    case (Ok(_), None, _) => Err(NoListener)
    case (Ok(_), Some(_), Err(e)) => Err(e)
    case (Ok(nodes), Some(listener), Ok((succ, errs))) =>
      Ok(CompiledGraph(
        nodes, succ, errs,
        if listener in succ then succ[listener] else listener,
        IdsOfType(policy.nodes, "client"), policy.errorHandler, policy.name))
  }

  lemma {:induction false} NodesErrorIsFirst<P, W>(nodes: seq<NodeConfig>, k: nat, pl: Plugins<P, W>)
    requires k <= |nodes| && IndexNodes(nodes[..k], pl).Err?
    ensures IndexNodes(nodes, pl) == IndexNodes(nodes[..k], pl)
  {
    if k < |nodes| {
      assert nodes[..|nodes| - 1][..k] == nodes[..k];
      NodesErrorIsFirst(nodes[..|nodes| - 1], k, pl);
    } else {
      assert nodes[..k] == nodes;
    }
  }

  lemma {:induction false} EdgesErrorIsFirst(edges: seq<EdgeConfig>, k: nat)
    requires k <= |edges| && IndexEdges(edges[..k]).Err?
    ensures IndexEdges(edges) == IndexEdges(edges[..k])
  {
    if k < |edges| {
      assert edges[..|edges| - 1][..k] == edges[..k];
      EdgesErrorIsFirst(edges[..|edges| - 1], k);
    } else {
      assert edges[..k] == edges;
    }
  }

  /** The first loop: plugins are created and indexed, the listener and the terminals noted. */
  method CompileNodes<P, W>(nodes: seq<NodeConfig>, pl: Plugins<P, W>)
    returns (r: Result<map<string, P>, CompileError>, listener: Option<string>, terminals: set<string>)
    ensures r == IndexNodes(nodes, pl)
    ensures r.Ok? ==> listener == ListenerId(nodes) && terminals == IdsOfType(nodes, "client")
  {
    var index: map<string, P> := map[];
    listener, terminals := None, {};
    assert nodes[..|nodes|] == nodes;
    for i := 0 to |nodes|
      invariant IndexNodes(nodes[..i], pl) == Ok(index)
      invariant listener == ListenerId(nodes[..i])
      invariant terminals == IdsOfType(nodes[..i], "client")
    {
      var n := nodes[i];
      assert nodes[..i + 1][..i] == nodes[..i];
      var created := pl.create(n.nodeType, n.config);
      if created.Err? {
        NodesErrorIsFirst(nodes, i + 1, pl);
        r := Err(PluginError(created.error));
        return;
      }
      IdsOfTypeNext(nodes, "client", i);
      if n.nodeType == "listener" {
        listener := Some(n.id);
      }
      if n.nodeType == "client" {
        terminals := terminals + {n.id};
      }
      index := index[n.id := created.value];
    }
    r := Ok(index);
  }

  lemma IdsOfTypeNext(nodes: seq<NodeConfig>, nodeType: string, i: nat)
    requires i < |nodes|
    ensures IdsOfType(nodes[..i + 1], nodeType)
         == IdsOfType(nodes[..i], nodeType) + if nodes[i].nodeType == nodeType then {nodes[i].id} else {}
  {
    assert nodes[..i + 1] == nodes[..i] + [nodes[i]];
  }

  lemma EdgesNext(
    edges: seq<EdgeConfig>, i: nat, succ: map<string, string>, errs: map<string, string>, from: Endpoint, to: Endpoint)
    requires i < |edges| && IndexEdges(edges[..i]) == Ok((succ, errs))
    requires from == ParseEdgeEndpoint(edges[i].source) && to == ParseEdgeEndpoint(edges[i].target)
    ensures IndexEdges(edges[..i + 1])
         == if IsSuccessPort(from.port) then Ok((succ[from.node := to.node], errs))
            else if from.port == "error" then Ok((succ, errs[from.node := to.node]))
            else Err(UnknownPort(from.port))
  {
    assert edges[..i + 1][..i] == edges[..i];
  }

  /** The second loop: edges are indexed by their source, the last one of a port winning. */
  method CompileEdges(edges: seq<EdgeConfig>)
    returns (r: Result<(map<string, string>, map<string, string>), CompileError>)
    ensures r == IndexEdges(edges)
  {
    var succ: map<string, string>, errs: map<string, string> := map[], map[];
    assert edges[..|edges|] == edges;
    for i := 0 to |edges|
      invariant IndexEdges(edges[..i]) == Ok((succ, errs))
    {
      var from := ParseEdgeEndpoint(edges[i].source);
      var to := ParseEdgeEndpoint(edges[i].target);
      EdgesNext(edges, i, succ, errs, from, to);
      if from.port == "success" || from.port == "out" {
        succ := succ[from.node := to.node];
      } else if from.port == "error" {
        errs := errs[from.node := to.node];
      } else {
        EdgesErrorIsFirst(edges, i + 1);
        return Err(UnknownPort(from.port));
      }
    }
    r := Ok((succ, errs));
  }

  method CompilePolicy<P, W>(policy: PolicyConfig, pl: Plugins<P, W>)
    returns (r: Result<CompiledGraph<P>, CompileError>)
    ensures r == Compile(policy, pl)
  {
    var nodes, listener, terminals := CompileNodes(policy.nodes, pl);
    if nodes.Err? {
      return Err(nodes.error);
    }
    if listener.None? {
      return Err(NoListener);
    }
    var edges := CompileEdges(policy.edges);
    if edges.Err? {
      return Err(edges.error);
    }
    var (succ, errs) := edges.value;
    var entry := if listener.value in succ then succ[listener.value] else listener.value;
    r := Ok(CompiledGraph(nodes.value, succ, errs, entry, terminals, policy.errorHandler, policy.name));
  }

  // ---- The walk ----

  /** One round of the walk: what ran, which edge was followed, and the state it left. */
  datatype Move<+W> = Move(
    nodeId: string,
    nodeType: string,
    outcome: StepOutcome,
    edge: EdgeKind,
    next: Option<string>,
    ctx: Context,
    world: W)

  function MissingNodeContext(ctx: Context, id: string): Context {
    ctx.(response := ctx.response.(
      status := 500, body := Utf8.OfString("Graph error: node '" + id + "' not found")))
  }

  function UnhandledContext(ctx: Context, body: Str): Context {
    ctx.(response := Response(500, ctx.response.headers["content-type" := ["application/json"]], body))
  }

  function Lookup(m: map<string, string>, id: string): Option<string> {
    if id in m then Some(m[id]) else None
  }

  /** Where a failed node sends the walk, and by which kind of edge. */
  function ErrorRoute(own: Option<string>, catchAll: Option<string>): (Option<string>, EdgeKind) {
    match (own, catchAll)
    case (Some(id), _) => (Some(id), Error)
    case (None, Some(id)) => (Some(id), CatchAll)
    case (None, None) => (None, Unhandled)
  }

  function StepAt<P, W>(g: CompiledGraph<P>, pl: Plugins<P, W>, id: string, ctx: Context, w: W): Move<W> {
    if id !in g.nodes then
      Move(id, "<missing>", Errored("NODE_NOT_FOUND", "node '" + id + "' not found"), NodeNotFound, None,
           MissingNodeContext(ctx, id), w)
    else
      var kind := pl.kindOf(g.nodes[id]);
      match pl.exec(g.nodes[id], ctx, w)
      case Done(c, w') =>
        var next := if id in g.terminals then None else Lookup(g.successEdges, id);
        var edge := if id in g.terminals then Terminal else if next.Some? then Success else EndOfChain;
        Move(id, kind, Succeeded, edge, next, c, w')
      case Failed(c, e, w') =>
        var c1 := c.(errors := c.errors + [e.(nodeId := id)]);
        var (next, edge) := ErrorRoute(Lookup(g.errorEdges, id), g.catchAll);
        Move(id, kind, Errored(e.code, e.message), edge, next,
             if next.None? then UnhandledContext(c1, pl.unhandledBody) else c1, w')
  }

  /** The first `fuel` moves of the walk from `id`; shorter exactly when the walk stops before. */
  function Trail<P, W>(g: CompiledGraph<P>, pl: Plugins<P, W>, id: string, ctx: Context, w: W, fuel: nat)
    : (t: seq<Move<W>>)
    ensures |t| <= fuel
    decreases fuel
  {
    if fuel == 0 then []
    else
      var m := StepAt(g, pl, id, ctx, w);
      if m.next.None? then [m] else [m] + Trail(g, pl, m.next.value, m.ctx, m.world, fuel - 1)
  }

  predicate Halted<W>(t: seq<Move<W>>) {
    t != [] && t[|t| - 1].next.None?
  }

  function FinalContext<W>(ctx: Context, t: seq<Move<W>>): Context {
    if t == [] then ctx else t[|t| - 1].ctx
  }

  function FinalWorld<W>(w: W, t: seq<Move<W>>): W {
    if t == [] then w else t[|t| - 1].world
  }

  /** The recording of a walk. */
  function RecordTrail<W>(r: Recording, t: seq<Move<W>>): Recording {
    if t == [] then r
    else
      var m := t[|t| - 1];
      Record(RecordTrail(r, t[..|t| - 1]), m.nodeId, m.nodeType, m.outcome, m.edge, m.next, m.ctx)
  }

  /** One round of the loop: run the current node, record the step, and choose where to go next. */
  method RunNode<P, W>(
    g: CompiledGraph<P>, pl: Plugins<P, W>, current: string, ctx0: Context, w0: W, recorder: TraceRecorder?)
    returns (next: Option<string>, ctx: Context, w: W)
    modifies if recorder == null then {} else {recorder}
    ensures var m := StepAt(g, pl, current, ctx0, w0);
            && next == m.next && ctx == m.ctx && w == m.world
            && (recorder != null ==>
                recorder.Value() == Record(old(recorder.Value()), current, m.nodeType, m.outcome, m.edge, next, ctx))
  {
    if current !in g.nodes {
      var text := "Graph error: node '" + current + "' not found";
      ctx, w, next := ctx0.(response := ctx0.response.(status := 500, body := Utf8.OfString(text))), w0, None;
      if recorder != null {
        recorder.RecordStep(
          current, "<missing>", Errored("NODE_NOT_FOUND", "node '" + current + "' not found"), NodeNotFound, None, ctx);
      }
      return;
    }
    var kind := pl.kindOf(g.nodes[current]);
    match pl.exec(g.nodes[current], ctx0, w0) {
      case Done(c, w') =>
        ctx, w := c, w';
        var terminal := current in g.terminals;
        next := if terminal then None else Lookup(g.successEdges, current);
        if recorder != null {
          var edge := if terminal then Terminal else if next.Some? then Success else EndOfChain;
          recorder.RecordStep(current, kind, Succeeded, edge, next, ctx);
        }
      case Failed(c, e, w') =>
        ctx, w := c.(errors := c.errors + [e.(nodeId := current)]), w';
        var edge;
        if current in g.errorEdges {
          next, edge := Some(g.errorEdges[current]), Error;
        } else if g.catchAll.Some? {
          next, edge := g.catchAll, CatchAll;
        } else {
          next, edge := None, Unhandled;
          var headers := ctx.response.headers["content-type" := ["application/json"]];
          ctx := ctx.(response := Response(500, headers, pl.unhandledBody));
        }
        if recorder != null {
          recorder.RecordStep(current, kind, Errored(e.code, e.message), edge, next, ctx);
        }
    }
  }

  /** Where a walk stands: the moves done and what is left make up its trail, and what the moves came to. */
  ghost predicate StandsAt<P, W>(
    g: CompiledGraph<P>, pl: Plugins<P, W>, ctx0: Context, w0: W, t: seq<Move<W>>, done: seq<Move<W>>, left: nat,
    id: string, ctx: Context, w: W, halted: bool)
  {
    && t == done + (if halted then [] else Trail(g, pl, id, ctx, w, left))
    && ctx == FinalContext(ctx0, done) && w == FinalWorld(w0, done) && halted == Halted(done)
  }

  lemma StandsAfter<P, W>(
    g: CompiledGraph<P>, pl: Plugins<P, W>, ctx0: Context, w0: W, t: seq<Move<W>>, done: seq<Move<W>>, left: nat,
    id: string, ctx: Context, w: W, m: Move<W>)
    requires left > 0 && StandsAt(g, pl, ctx0, w0, t, done, left, id, ctx, w, false) && m == StepAt(g, pl, id, ctx, w)
    ensures StandsAt(g, pl, ctx0, w0, t, done + [m], left - 1,
                     if m.next.Some? then m.next.value else id, m.ctx, m.world, m.next.None?)
  {
    var rest := if m.next.None? then [] else Trail(g, pl, m.next.value, m.ctx, m.world, left - 1);
    TrailCons(g, pl, id, ctx, w, left, m, rest);
    StandsNext(g, pl, ctx0, w0, t, done, left, id, m, rest);
  }

  lemma StandsNext<P, W>(
    g: CompiledGraph<P>, pl: Plugins<P, W>, ctx0: Context, w0: W, t: seq<Move<W>>, done: seq<Move<W>>, left: nat,
    id: string, m: Move<W>, rest: seq<Move<W>>)
    requires left > 0 && t == done + ([m] + rest)
    requires rest == if m.next.None? then [] else Trail(g, pl, m.next.value, m.ctx, m.world, left - 1)
    ensures StandsAt(g, pl, ctx0, w0, t, done + [m], left - 1,
                     if m.next.Some? then m.next.value else id, m.ctx, m.world, m.next.None?)
  {
    FinalSnoc(ctx0, w0, done, m);
    AppendOne(done, m, rest);
  }

  lemma AppendOne<T>(a: seq<T>, x: T, b: seq<T>)
    ensures a + ([x] + b) == (a + [x]) + b
  {
  }

  lemma TrailCons<P, W>(
    g: CompiledGraph<P>, pl: Plugins<P, W>, id: string, ctx: Context, w: W, fuel: nat, m: Move<W>, rest: seq<Move<W>>)
    requires fuel > 0 && m == StepAt(g, pl, id, ctx, w)
    requires rest == if m.next.None? then [] else Trail(g, pl, m.next.value, m.ctx, m.world, fuel - 1)
    ensures Trail(g, pl, id, ctx, w, fuel) == [m] + rest
  {
  }

  lemma FinalSnoc<W>(ctx0: Context, w0: W, done: seq<Move<W>>, m: Move<W>)
    ensures FinalContext(ctx0, done + [m]) == m.ctx && FinalWorld(w0, done + [m]) == m.world
    ensures Halted(done + [m]) == m.next.None?
  {
  }

  lemma StepNamesNode<P, W>(g: CompiledGraph<P>, pl: Plugins<P, W>, id: string, ctx: Context, w: W)
    ensures StepAt(g, pl, id, ctx, w).nodeId == id
  {
  }

  lemma RecordsNext<W>(r: Recording, done: seq<Move<W>>, m: Move<W>)
    ensures RecordTrail(r, done + [m])
            == Record(RecordTrail(r, done), m.nodeId, m.nodeType, m.outcome, m.edge, m.next, m.ctx)
  {
    assert (done + [m])[..|done|] == done;
  }

  /** The single graph walk, optionally recording each step. `fuel` bounds the rounds, since a policy with
      a cycle may walk for ever; `halted` says that the walk ended within it. */
  method Run<P, W>(
    g: CompiledGraph<P>, pl: Plugins<P, W>, ctx0: Context, w0: W, fuel: nat, recorder: TraceRecorder?)
    returns (ctx: Context, w: W, halted: bool)
    modifies if recorder == null then {} else {recorder}
    ensures var t := Trail(g, pl, g.entry, ctx0, w0, fuel);
            && ctx == FinalContext(ctx0, t) && w == FinalWorld(w0, t) && halted == Halted(t)
            && (recorder != null ==> recorder.Value() == RecordTrail(old(recorder.Value()), t))
  {
    ghost var t, done := Trail(g, pl, g.entry, ctx0, w0, fuel), [];
    ctx, w, halted := ctx0, w0, false;
    var current := g.entry;
    var left := fuel;
    assert [] + t == t;
    while left > 0 && !halted
      invariant StandsAt(g, pl, ctx0, w0, t, done, left, current, ctx, w, halted)
      invariant recorder != null ==> recorder.Value() == RecordTrail(old(recorder.Value()), done)
    {
      ghost var m := StepAt(g, pl, current, ctx, w);
      StepNamesNode(g, pl, current, ctx, w);
      StandsAfter(g, pl, ctx0, w0, t, done, left, current, ctx, w, m);
      if recorder != null {
        RecordsNext(old(recorder.Value()), done, m);
      }
      var next;
      next, ctx, w := RunNode(g, pl, current, ctx, w, recorder);
      done := done + [m];
      left := left - 1;
      match next {
        case Some(id) => current := id;
        case None => halted := true;
      }
    }
    assert done + [] == done;
  }

  lemma TrailHead<P, W>(g: CompiledGraph<P>, pl: Plugins<P, W>, id: string, ctx: Context, w: W, fuel: nat)
    requires fuel > 0
    ensures var m, t := StepAt(g, pl, id, ctx, w), Trail(g, pl, id, ctx, w, fuel);
            && t != [] && t[0] == m
            && t[1..] == if m.next.None? then [] else Trail(g, pl, m.next.value, m.ctx, m.world, fuel - 1)
  {
  }
}
