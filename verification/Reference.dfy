/** A reference interpreter that reads the declared node and edge lists directly, and the proof that
    the compiled walk means the same. */
module Reference {
  import opened Wrappers
  import opened Policy
  import opened Trace
  import opened Engine

  /** Of the nodes declared under one id, the last one counts. */
  function LastNamed(nodes: seq<NodeConfig>, id: string): Option<NodeConfig> {
    if nodes == [] then None
    else if nodes[|nodes| - 1].id == id then Some(nodes[|nodes| - 1])
    else LastNamed(nodes[..|nodes| - 1], id)
  }

  datatype Side = OnSuccess | OnError

  predicate Leaves(edge: EdgeConfig, id: string, side: Side) {
    var from := ParseEdgeEndpoint(edge.source);
    from.node == id && if side == OnSuccess then IsSuccessPort(from.port) else from.port == "error"
  }

  /** Of the edges leaving one side of a node, the last one counts. */
  function LastTarget(edges: seq<EdgeConfig>, id: string, side: Side): Option<string> {
    if edges == [] then None
    else if Leaves(edges[|edges| - 1], id, side) then Some(ParseEdgeEndpoint(edges[|edges| - 1].target).node)
    else LastTarget(edges[..|edges| - 1], id, side)
  }

  predicate KnownPort(edge: EdgeConfig) {
    var port := ParseEdgeEndpoint(edge.source).port;
    port == "success" || port == "out" || port == "error"
  }

  ghost predicate Compilable<P, W>(policy: PolicyConfig, pl: Plugins<P, W>) {
    && (forall n | n in policy.nodes :: pl.create(n.nodeType, n.config).Ok?)
    && (exists n :: n in policy.nodes && n.nodeType == "listener")
    && (forall e | e in policy.edges :: KnownPort(e))
  }

  /** Any declaration of the id as a client makes it terminal, even an overridden one. */
  predicate IsTerminal(policy: PolicyConfig, id: string) {
    exists n | n in policy.nodes :: n.id == id && n.nodeType == "client"
  }

  ghost function RefStep<P, W>(policy: PolicyConfig, pl: Plugins<P, W>, id: string, ctx: Context, w: W): Move<W>
    requires Compilable(policy, pl)
  {
    match LastNamed(policy.nodes, id)
    case None =>
      Move(id, "<missing>", Errored("NODE_NOT_FOUND", "node '" + id + "' not found"), NodeNotFound, None,
           MissingNodeContext(ctx, id), w)
    case Some(n) =>
      LastNamedDeclared(policy.nodes, id);
      var plugin := pl.create(n.nodeType, n.config).value;
      match pl.exec(plugin, ctx, w)
      case Done(c, w') =>
        if IsTerminal(policy, id) then
          Move(id, pl.kindOf(plugin), Succeeded, Terminal, None, c, w')
        else (
          match LastTarget(policy.edges, id, OnSuccess)
          case Some(to) => Move(id, pl.kindOf(plugin), Succeeded, Success, Some(to), c, w')
          case None => Move(id, pl.kindOf(plugin), Succeeded, EndOfChain, None, c, w'))
      case Failed(c, e, w') =>
        var tagged := c.(errors := c.errors + [GatewayError(id, e.code, e.message)]);
        var outcome := Errored(e.code, e.message);
        match LastTarget(policy.edges, id, OnError)
        case Some(to) => Move(id, pl.kindOf(plugin), outcome, Error, Some(to), tagged, w')
        case None =>
          match policy.errorHandler
          case Some(handler) => Move(id, pl.kindOf(plugin), outcome, CatchAll, Some(handler), tagged, w')
          case None =>
            Move(id, pl.kindOf(plugin), outcome, Unhandled, None, UnhandledContext(tagged, pl.unhandledBody), w')
  }

  ghost function RefTrail<P, W>(
    policy: PolicyConfig, pl: Plugins<P, W>, id: string, ctx: Context, w: W, fuel: nat): seq<Move<W>>
    requires Compilable(policy, pl)
    decreases fuel
  {
    if fuel == 0 then []
    else
      var m := RefStep(policy, pl, id, ctx, w);
      if m.next.None? then [m] else [m] + RefTrail(policy, pl, m.next.value, m.ctx, m.world, fuel - 1)
  }

  /** Execution starts at the listener's successor, or at the listener when it has none. */
  function Start(policy: PolicyConfig): string
    requires ListenerId(policy.nodes).Some?
  {
    var listener := ListenerId(policy.nodes).value;
    match LastTarget(policy.edges, listener, OnSuccess)
    case Some(to) => to
    case None => listener
  }

  lemma {:induction false} LastNamedDeclared(nodes: seq<NodeConfig>, id: string)
    ensures LastNamed(nodes, id).Some? <==> exists n :: n in nodes && n.id == id
    ensures LastNamed(nodes, id).Some? ==>
      LastNamed(nodes, id).value in nodes && LastNamed(nodes, id).value.id == id
  {
    if nodes != [] {
      LastNamedDeclared(nodes[..|nodes| - 1], id);
      assert nodes == nodes[..|nodes| - 1] + [nodes[|nodes| - 1]];
    }
  }

  lemma {:induction false} ListenerDeclared(nodes: seq<NodeConfig>)
    ensures ListenerId(nodes).Some? <==> exists n :: n in nodes && n.nodeType == "listener"
    ensures ListenerId(nodes).Some? ==>
              exists n :: n in nodes && n.nodeType == "listener" && n.id == ListenerId(nodes).value
  {
    if nodes != [] {
      ListenerDeclared(nodes[..|nodes| - 1]);
      var last := nodes[|nodes| - 1];
      assert nodes == nodes[..|nodes| - 1] + [last];
      assert last in nodes;
    }
  }

  lemma {:induction false} NodesIndexed<P, W>(nodes: seq<NodeConfig>, pl: Plugins<P, W>)
    ensures IndexNodes(nodes, pl).Ok? <==> forall n | n in nodes :: pl.create(n.nodeType, n.config).Ok?
    ensures IndexNodes(nodes, pl).Ok? ==>
      forall id :: (id in IndexNodes(nodes, pl).value <==> LastNamed(nodes, id).Some?)
                && (LastNamed(nodes, id).Some? ==>
                    var n := LastNamed(nodes, id).value;
                    pl.create(n.nodeType, n.config) == Ok(IndexNodes(nodes, pl).value[id]))
  {
    if nodes != [] {
      NodesIndexed(nodes[..|nodes| - 1], pl);
      assert nodes == nodes[..|nodes| - 1] + [nodes[|nodes| - 1]];
    }
  }

  lemma {:induction false} EdgesIndexed(edges: seq<EdgeConfig>)
    ensures IndexEdges(edges).Ok? <==> forall e | e in edges :: KnownPort(e)
    ensures IndexEdges(edges).Ok? ==>
      forall id :: Lookup(IndexEdges(edges).value.0, id) == LastTarget(edges, id, OnSuccess)
                && Lookup(IndexEdges(edges).value.1, id) == LastTarget(edges, id, OnError)
  {
    if edges != [] {
      var init, last := edges[..|edges| - 1], edges[|edges| - 1];
      EdgesIndexed(init);
      assert last in edges;
      assert forall e :: e in edges <==> e in init || e == last by {
        assert edges == init + [last];
      }
      assert IndexEdges(edges).Ok? <==> IndexEdges(init).Ok? && KnownPort(last);
    }
  }

  /** A policy compiles exactly when every plugin can be built, a listener exists and every port is known. */
  lemma CompilesIff<P, W>(policy: PolicyConfig, pl: Plugins<P, W>)
    ensures Compile(policy, pl).Ok? <==> Compilable(policy, pl)
  {
    NodesIndexed(policy.nodes, pl);
    ListenerDeclared(policy.nodes);
    EdgesIndexed(policy.edges);
  }

  /** What the compiled indexes hold, in terms of the declared lists. */
  lemma CompiledTables<P, W>(policy: PolicyConfig, pl: Plugins<P, W>, g: CompiledGraph<P>)
    requires Compile(policy, pl) == Ok(g)
    ensures Compilable(policy, pl) && ListenerId(policy.nodes).Some?
    ensures g.entry == Start(policy) && g.catchAll == policy.errorHandler
    ensures forall id :: id in g.terminals <==> IsTerminal(policy, id)
    ensures forall id :: Lookup(g.successEdges, id) == LastTarget(policy.edges, id, OnSuccess)
    ensures forall id :: Lookup(g.errorEdges, id) == LastTarget(policy.edges, id, OnError)
    ensures forall id :: id in g.nodes <==> LastNamed(policy.nodes, id).Some?
    ensures forall id :: id in g.nodes ==>
      var n := LastNamed(policy.nodes, id).value; pl.create(n.nodeType, n.config) == Ok(g.nodes[id])
  {
    CompilesIff(policy, pl);
    NodesIndexed(policy.nodes, pl);
    EdgesIndexed(policy.edges);
    assert Lookup(g.successEdges, ListenerId(policy.nodes).value)
        == LastTarget(policy.edges, ListenerId(policy.nodes).value, OnSuccess);
  }

  lemma StepPreserved<P, W>(
    policy: PolicyConfig, pl: Plugins<P, W>, g: CompiledGraph<P>, id: string, ctx: Context, w: W)
    requires Compile(policy, pl) == Ok(g) && Compilable(policy, pl)
    ensures StepAt(g, pl, id, ctx, w) == RefStep(policy, pl, id, ctx, w)
  {
    CompiledTables(policy, pl, g);
    assert Lookup(g.successEdges, id) == LastTarget(policy.edges, id, OnSuccess);
    assert Lookup(g.errorEdges, id) == LastTarget(policy.edges, id, OnError);
    assert id in g.terminals <==> IsTerminal(policy, id);
  }

  lemma {:induction false} WalkPreserved<P, W>(
    policy: PolicyConfig, pl: Plugins<P, W>, g: CompiledGraph<P>, id: string, ctx: Context, w: W, fuel: nat)
    requires Compile(policy, pl) == Ok(g) && Compilable(policy, pl)
    ensures Trail(g, pl, id, ctx, w, fuel) == RefTrail(policy, pl, id, ctx, w, fuel)
    decreases fuel
  {
    if fuel > 0 {
      StepPreserved(policy, pl, g, id, ctx, w);
      var m := StepAt(g, pl, id, ctx, w);
      if m.next.Some? {
        WalkPreserved(policy, pl, g, m.next.value, m.ctx, m.world, fuel - 1);
      }
    }
  }

  /** Compilation preserves meaning: for every policy that compiles, every plugin behaviour, context, world
      and number of steps, the compiled walk is the walk over the declared lists. */
  lemma CompilationPreservesMeaning<P, W>(
    policy: PolicyConfig, pl: Plugins<P, W>, g: CompiledGraph<P>, ctx: Context, w: W, fuel: nat)
    requires Compile(policy, pl) == Ok(g)
    ensures Compilable(policy, pl) && ListenerId(policy.nodes).Some?
    ensures Trail(g, pl, g.entry, ctx, w, fuel) == RefTrail(policy, pl, Start(policy), ctx, w, fuel)
  {
    CompiledTables(policy, pl, g);
    WalkPreserved(policy, pl, g, g.entry, ctx, w, fuel);
  }
}
