/** When the walk can run into a missing node, and when it must end. */
module WalkSafety {
  import opened Wrappers
  import opened Policy
  import opened Trace
  import opened Engine
  import opened Reference
  import opened Validation

  /** Ways a walk can leave node `id`: `failed` tells which of its two sides is taken. */
  function Onward<P>(g: CompiledGraph<P>, id: string, failed: bool): Option<string> {
    if failed then ErrorRoute(Lookup(g.errorEdges, id), g.catchAll).0
    else if id in g.terminals then None
    else Lookup(g.successEdges, id)
  }

  ghost predicate Hits<W>(t: seq<Move<W>>, kind: EdgeKind) {
    exists m | m in t :: m.edge == kind
  }

  /** A set of declared nodes that holds the entry and that no edge leaves. */
  ghost predicate ClosedRegion<P>(g: CompiledGraph<P>, region: set<string>) {
    && g.entry in region
    && region <= g.nodes.Keys
    && forall id, failed | id in region && Onward(g, id, failed).Some? :: Onward(g, id, failed).value in region
  }

  lemma {:induction false} RegionContainsWalk<P, W>(
    g: CompiledGraph<P>, region: set<string>, pl: Plugins<P, W>, id: string, ctx: Context, w: W, fuel: nat)
    requires ClosedRegion(g, region) && id in region
    ensures forall m | m in Trail(g, pl, id, ctx, w, fuel) :: m.nodeId in region && m.edge != NodeNotFound
    decreases fuel
  {
    if fuel > 0 {
      var m := StepAt(g, pl, id, ctx, w);
      assert m.next == Onward(g, id, m.outcome.Errored?);
      if m.next.Some? {
        RegionContainsWalk(g, region, pl, m.next.value, m.ctx, m.world, fuel - 1);
      }
    }
  }

  // ---- Some behaviour reaches every edge-reachable id ----

  /** Plugins whose failures follow a script: the world is the list of verdicts still to come. */
  function ScriptedExec<P>(p: P, ctx: Context, script: seq<bool>): Outcome<seq<bool>> {
    if script == [] then Done(ctx, [])
    else if script[0] then Failed(ctx, GatewayError("", "SCRIPTED", ""), script[1..])
    else Done(ctx, script[1..])
  }

  function Scripted<P, W>(pl: Plugins<P, W>): Plugins<P, seq<bool>> {
    Plugins(pl.create, pl.kindOf, (p, ctx, script) => ScriptedExec(p, ctx, script), pl.unhandledBody)
  }

  /** Where the script leads from `id`, if every node on the way exists and has that edge. */
  function Follow<P>(g: CompiledGraph<P>, id: string, script: seq<bool>): Option<string>
    decreases script
  {
    if script == [] then Some(id)
    else if id !in g.nodes then None
    else
      match Onward(g, id, script[0])
      case None => None
      case Some(next) => Follow(g, next, script[1..])
  }

  lemma {:induction false} FollowExtend<P>(g: CompiledGraph<P>, id: string, script: seq<bool>, failed: bool)
    requires Follow(g, id, script).Some? && Follow(g, id, script).value in g.nodes
    ensures Follow(g, id, script + [failed]) == Onward(g, Follow(g, id, script).value, failed)
    decreases script
  {
    if script == [] {
      assert (script + [failed])[1..] == [];
    } else {
      assert (script + [failed])[1..] == script[1..] + [failed];
      FollowExtend(g, Onward(g, id, script[0]).value, script[1..], failed);
    }
  }

  lemma {:induction false} ScriptIsFollowed<P, W>(
    g: CompiledGraph<P>, pl: Plugins<P, W>, id: string, ctx: Context, script: seq<bool>)
    requires Follow(g, id, script).Some? && Follow(g, id, script).value !in g.nodes
    ensures Hits(Trail(g, Scripted(pl), id, ctx, script, |script| + 1), NodeNotFound)
    decreases script
  {
    var t := Trail(g, Scripted(pl), id, ctx, script, |script| + 1);
    TrailHead(g, Scripted(pl), id, ctx, script, |script| + 1);
    var m := StepAt(g, Scripted(pl), id, ctx, script);
    if script == [] {
      assert t[0].edge == NodeNotFound && t[0] in t;
    } else {
      var next := Onward(g, id, script[0]).value;
      assert m.next == Some(next) && m.world == script[1..];
      ScriptIsFollowed(g, pl, next, m.ctx, script[1..]);
      assert forall x :: x in t[1..] ==> x in t;
    }
  }

  ghost predicate Reachable<P>(g: CompiledGraph<P>, id: string) {
    exists script :: Follow(g, g.entry, script) == Some(id)
  }

  ghost predicate SomeRunMisses<P, W>(g: CompiledGraph<P>, pl: Plugins<P, W>, ctx: Context) {
    exists script: seq<bool>, fuel: nat :: Hits(Trail(g, Scripted(pl), g.entry, ctx, script, fuel), NodeNotFound)
  }

  /** Exact: some plugin behaviour runs into a missing node unless a closed region exists; and within a
      closed region no behaviour does (`ClosedRegionIsSafe`). The region can be computed before the run. */
  lemma MissingNodeUnlessClosed<P, W>(g: CompiledGraph<P>, pl: Plugins<P, W>, ctx: Context)
    ensures || (exists region :: ClosedRegion(g, region))
            || SomeRunMisses(g, pl, ctx)
  {
    if exists id :: id !in g.nodes && Reachable(g, id) {
      var id :| id !in g.nodes && Reachable(g, id);
      var script :| Follow(g, g.entry, script) == Some(id);
      ScriptIsFollowed(g, pl, g.entry, ctx, script);
      assert SomeRunMisses(g, pl, ctx);
    } else {
      var region := set id | id in g.nodes.Keys && Reachable(g, id);
      assert Follow(g, g.entry, []) == Some(g.entry);
      assert Reachable(g, g.entry);
      forall id, failed | id in region && Onward(g, id, failed).Some? ensures Onward(g, id, failed).value in region {
        var script :| Follow(g, g.entry, script) == Some(id);
        FollowExtend(g, g.entry, script, failed);
        assert Reachable(g, Onward(g, id, failed).value);
      }
      assert ClosedRegion(g, region);
    }
  }

  lemma ClosedRegionIsSafe<P, W>(
    g: CompiledGraph<P>, region: set<string>, pl: Plugins<P, W>, ctx: Context, w: W, fuel: nat)
    requires ClosedRegion(g, region)
    ensures !Hits(Trail(g, pl, g.entry, ctx, w, fuel), NodeNotFound)
  {
    RegionContainsWalk(g, region, pl, g.entry, ctx, w, fuel);
  }

  // ---- Validation makes the walk safe when its reading of the endpoints is the compiler's ----

  lemma {:induction false} LastTargetFromEdge(edges: seq<EdgeConfig>, id: string, side: Side)
    requires LastTarget(edges, id, side).Some?
    ensures exists e :: e in edges && ParseEdgeEndpoint(e.target).node == LastTarget(edges, id, side).value
  {
    var last := edges[|edges| - 1];
    if Leaves(last, id, side) {
      assert last in edges;
    } else {
      LastTargetFromEdge(edges[..|edges| - 1], id, side);
      var e :| e in edges[..|edges| - 1] && ParseEdgeEndpoint(e.target).node == LastTarget(edges, id, side).value;
      assert e in edges;
    }
  }

  ghost predicate TargetsHaveAtMostOneDot(policy: PolicyConfig) {
    forall e | e in policy.edges :: AtMostOneDot(e.target)
  }

  lemma DeclaredAreIndexed<P, W>(policy: PolicyConfig, pl: Plugins<P, W>, g: CompiledGraph<P>)
    requires Compile(policy, pl) == Ok(g)
    ensures forall id :: id in g.nodes <==> id in NodeIds(policy.nodes)
  {
    CompiledTables(policy, pl, g);
    forall id ensures id in g.nodes <==> id in NodeIds(policy.nodes) {
      LastNamedDeclared(policy.nodes, id);
    }
  }

  /** Every edge that validation accepted, read by the compiler, leads to a declared node. */
  lemma TargetDeclared(policy: PolicyConfig, id: string, side: Side)
    requires EdgesJoinNodes(policy.edges, NodeIds(policy.nodes)) && TargetsHaveAtMostOneDot(policy)
    requires LastTarget(policy.edges, id, side).Some?
    ensures LastTarget(policy.edges, id, side).value in NodeIds(policy.nodes)
  {
    LastTargetFromEdge(policy.edges, id, side);
    var e :| e in policy.edges && ParseEdgeEndpoint(e.target).node == LastTarget(policy.edges, id, side).value;
    SplitsAgree(e.target);
  }

  lemma StartDeclared<P, W>(policy: PolicyConfig, pl: Plugins<P, W>, g: CompiledGraph<P>)
    requires Compile(policy, pl) == Ok(g)
    requires EdgesJoinNodes(policy.edges, NodeIds(policy.nodes)) && TargetsHaveAtMostOneDot(policy)
    ensures g.entry in NodeIds(policy.nodes)
  {
    CompiledTables(policy, pl, g);
    ListenerDeclared(policy.nodes);
    var listener := ListenerId(policy.nodes).value;
    if LastTarget(policy.edges, listener, OnSuccess).Some? {
      TargetDeclared(policy, listener, OnSuccess);
    }
  }

  /** Where a compiled node leads: to the last edge of that side, or to the catch-all handler. */
  lemma OnwardCases<P, W>(policy: PolicyConfig, pl: Plugins<P, W>, g: CompiledGraph<P>, id: string, failed: bool)
    requires Compile(policy, pl) == Ok(g)
    ensures var to := Onward(g, id, failed);
            to.Some? ==>
              || to == LastTarget(policy.edges, id, if failed then OnError else OnSuccess)
              || to == policy.errorHandler
  {
    CompiledTables(policy, pl, g);
    assert Lookup(g.successEdges, id) == LastTarget(policy.edges, id, OnSuccess);
    assert Lookup(g.errorEdges, id) == LastTarget(policy.edges, id, OnError);
  }

  lemma OnwardDeclared<P, W>(policy: PolicyConfig, pl: Plugins<P, W>, g: CompiledGraph<P>, id: string, failed: bool)
    requires Violations(policy) == [] && Compile(policy, pl) == Ok(g) && TargetsHaveAtMostOneDot(policy)
    ensures Onward(g, id, failed).Some? ==> Onward(g, id, failed).value in NodeIds(policy.nodes)
  {
    ValidIffWellFormed(policy);
    OnwardCases(policy, pl, g, id, failed);
    var side := if failed then OnError else OnSuccess;
    if LastTarget(policy.edges, id, side).Some? {
      TargetDeclared(policy, id, side);
    }
  }

  /** A valid policy that compiles, whose edge targets have at most one dot, is closed: all its declared
      nodes form a region that no edge, error edge or catch-all jump leaves. */
  lemma ValidatedIsClosed<P, W>(policy: PolicyConfig, pl: Plugins<P, W>, g: CompiledGraph<P>)
    requires Violations(policy) == [] && Compile(policy, pl) == Ok(g) && TargetsHaveAtMostOneDot(policy)
    ensures ClosedRegion(g, g.nodes.Keys)
  {
    ValidIffWellFormed(policy);
    DeclaredAreIndexed(policy, pl, g);
    StartDeclared(policy, pl, g);
    forall id, failed | Onward(g, id, failed).Some? ensures Onward(g, id, failed).value in g.nodes {
      OnwardDeclared(policy, pl, g, id, failed);
    }
  }

  /** So no run of such a policy ever meets the engine's node-not-found step. */
  lemma ValidatedNeverMissing<P, W>(
    policy: PolicyConfig, pl: Plugins<P, W>, g: CompiledGraph<P>, ctx: Context, w: W, fuel: nat)
    requires Violations(policy) == [] && Compile(policy, pl) == Ok(g) && TargetsHaveAtMostOneDot(policy)
    ensures !Hits(Trail(g, pl, g.entry, ctx, w, fuel), NodeNotFound)
  {
    ValidatedIsClosed(policy, pl, g);
    ClosedRegionIsSafe(g, g.nodes.Keys, pl, ctx, w, fuel);
  }

  /** A listener, a client, and an edge to `client.x.in`: two dots in the target. */
  function DottedTarget(l: string, c: string, x: string): PolicyConfig {
    PolicyConfig("p", None, [NodeConfig(l, "listener", map[]), NodeConfig(c, "client", map[])],
                 [EdgeConfig(l + "." + "out", (c + "." + x) + "." + "in")])
  }

  lemma DottedTargetParts(l: string, c: string, x: string, e: EdgeConfig)
    requires '.' !in l && '.' !in c && e == EdgeConfig(l + "." + "out", (c + "." + x) + "." + "in")
    ensures ParseEdgeEndpoint(e.source) == Endpoint(l, "out")
    ensures ParseEdgeEndpoint(e.target) == Endpoint(c + "." + x, "in")
    ensures BeforeFirstDot(e.source) == l && BeforeFirstDot(e.target) == c
  {
    ParseJoined(l, "out");
    ParseJoined(c + "." + x, "in");
    FirstOfJoined(l, "out");
    Regroup(c, x, ".", "in");
    FirstOfJoined(c, x + "." + "in");
  }

  lemma Regroup(c: string, x: string, dot: string, port: string)
    ensures (c + dot + x) + dot + port == c + dot + (x + dot + port)
  {
  }

  lemma {:induction false} OneEdge(e: EdgeConfig, id: string, target: string)
    requires ParseEdgeEndpoint(e.source) == Endpoint(id, "out") && ParseEdgeEndpoint(e.target).node == target
    ensures LastTarget([e], id, OnSuccess) == Some(target) && KnownPort(e)
  {
    assert [e][..0] == [];
  }

  lemma TwoNodes(l: NodeConfig, c: NodeConfig, id: string)
    requires l.nodeType == "listener" && c.nodeType == "client"
    ensures ListenerId([l, c]) == Some(l.id)
    ensures id != l.id && id != c.id ==> LastNamed([l, c], id) == None
  {
    assert [l, c][..1] == [l] && [l][..0] == [];
    assert ListenerId([l]) == Some(l.id);
    assert id != l.id ==> LastNamed([l], id) == None;
  }

  /** With two dots validation looks at the part before the first, the compiler at the part before the last: the
      policy validates and compiles, and its very first step is node-not-found. */
  lemma DottedTargetEscapesValidation<P, W>(
    l: string, c: string, x: string, pl: Plugins<P, W>, ctx: Context, w: W)
    requires '.' !in l && '.' !in c
    requires pl.create("listener", map[]).Ok? && pl.create("client", map[]).Ok?
    ensures Violations(DottedTarget(l, c, x)) == []
    ensures var g := Compile(DottedTarget(l, c, x), pl);
            g.Ok? && Hits(Trail(g.value, pl, g.value.entry, ctx, w, 1), NodeNotFound)
  {
    var p := DottedTarget(l, c, x);
    DottedTargetParts(l, c, x, p.edges[0]);
    OneHopValidates(p, p.nodes[0], p.nodes[1], p.edges[0]);
    OneHopMisses(p, p.nodes[0], p.nodes[1], p.edges[0], c + "." + x, pl, ctx, w);
  }

  /** An edge that the compiler reads as leading to no declared node. */
  lemma OneHopMisses<P, W>(
    p: PolicyConfig, l: NodeConfig, c: NodeConfig, e: EdgeConfig, id: string, pl: Plugins<P, W>, ctx: Context, w: W)
    requires p.nodes == [l, c] && p.edges == [e]
    requires l.nodeType == "listener" && c.nodeType == "client" && id != l.id && id != c.id
    requires ParseEdgeEndpoint(e.source) == Endpoint(l.id, "out") && ParseEdgeEndpoint(e.target).node == id
    requires pl.create(l.nodeType, l.config).Ok? && pl.create(c.nodeType, c.config).Ok?
    ensures var g := Compile(p, pl);
            g.Ok? && Hits(Trail(g.value, pl, g.value.entry, ctx, w, 1), NodeNotFound)
  {
    OneHopCompiles(p, l, c, e, id, pl);
    EntryMissing(p, pl, Compile(p, pl).value, id, l.id, ctx, w);
  }

  lemma OneHopCompiles<P, W>(
    p: PolicyConfig, l: NodeConfig, c: NodeConfig, e: EdgeConfig, id: string, pl: Plugins<P, W>)
    requires p.nodes == [l, c] && p.edges == [e] && l.nodeType == "listener" && c.nodeType == "client"
    requires ParseEdgeEndpoint(e.source) == Endpoint(l.id, "out") && ParseEdgeEndpoint(e.target).node == id
    requires pl.create(l.nodeType, l.config).Ok? && pl.create(c.nodeType, c.config).Ok?
    ensures Compile(p, pl).Ok? && ListenerId(p.nodes) == Some(l.id) && LastTarget(p.edges, l.id, OnSuccess) == Some(id)
  {
    OneEdge(e, l.id, id);
    TwoNodes(l, c, id);
    assert l in p.nodes;
    CompilesIff(p, pl);
  }

  lemma EntryMissing<P, W>(
    p: PolicyConfig, pl: Plugins<P, W>, g: CompiledGraph<P>, id: string, l: string, ctx: Context, w: W)
    requires Compile(p, pl) == Ok(g) && ListenerId(p.nodes) == Some(l)
    requires LastTarget(p.edges, l, OnSuccess) == Some(id) && (id !in NodeIds(p.nodes))
    ensures Hits(Trail(g, pl, g.entry, ctx, w, 1), NodeNotFound)
  {
    CompiledTables(p, pl, g);
    DeclaredAreIndexed(p, pl, g);
    TrailHead(g, pl, g.entry, ctx, w, 1);
  }

  lemma OneHopWellFormed(p: PolicyConfig, l: NodeConfig, c: NodeConfig, e: EdgeConfig)
    requires p.nodes == [l, c] && p.edges == [e] && p.errorHandler == None
    requires l.nodeType == "listener" && c.nodeType == "client"
    requires BeforeFirstDot(e.source) == l.id && BeforeFirstDot(e.target) == c.id
    ensures WellFormed(p)
  {
    assert l in p.nodes && c in p.nodes && e in p.edges;
    assert l.id in NodeIds(p.nodes) && c.id in NodeIds(p.nodes);
    assert Touches(e, l.id) && Touches(e, c.id);
  }

  /** Listener, client and one edge that validation reads as joining them: a valid policy. */
  lemma OneHopValidates(p: PolicyConfig, l: NodeConfig, c: NodeConfig, e: EdgeConfig)
    requires p.nodes == [l, c] && p.edges == [e] && p.errorHandler == None
    requires l.nodeType == "listener" && c.nodeType == "client"
    requires BeforeFirstDot(e.source) == l.id && BeforeFirstDot(e.target) == c.id
    ensures Violations(p) == []
  {
    OneHopWellFormed(p, l, c, e);
    ValidIffWellFormed(p);
  }
}
