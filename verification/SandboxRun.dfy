/** What running a synthesized policy means: the plugins in order, up to the first failure. */
module SandboxRun {
  import opened Wrappers
  import opened Bytes
  import opened Policy
  import opened Engine
  import opened Reference
  import opened Sandbox
  import Validation

  // ---- The intended meaning: fold the plugins over the context ----

  datatype Folded<W> = AllPassed(ctx: Context, world: W) | FirstFailure(ctx: Context, world: W)

  ghost predicate Buildable<P, W>(user: seq<NodeConfig>, pl: Plugins<P, W>) {
    forall n | n in user :: pl.create(n.nodeType, n.config).Ok?
  }

  ghost function FoldPlugins<P, W>(user: seq<NodeConfig>, pl: Plugins<P, W>, ctx: Context, w: W): Folded<W>
    requires Buildable(user, pl)
    decreases user
  {
    if user == [] then AllPassed(ctx, w)
    else
      match pl.exec(pl.create(user[0].nodeType, user[0].config).value, ctx, w)
      case Done(c, w') => FoldPlugins(user[1..], pl, c, w')
      case Failed(c, e, w') =>
        FirstFailure(c.(errors := c.errors + [GatewayError(user[0].id, e.code, e.message)]), w')
  }

  /** A failure reaches the client with its own response, or becomes the engine's generic 500. */
  function Delivered<W>(f: Folded<W>, onError: OnErrorMode, unhandledBody: Str): Context {
    match f
    case AllPassed(ctx, _) => ctx
    case FirstFailure(ctx, _) => if onError == ToClient then ctx else UnhandledContext(ctx, unhandledBody)
  }

  // ---- The nodes that the synthesized policy really runs ----

  /** The chain position where the walk starts: after a user node that is itself called `listener`. */
  function StartOf(user: seq<NodeConfig>): nat
    ensures StartOf(user) <= |user|
  {
    if user == [] then 0
    else if user[|user| - 1].id == "listener" then |user|
    else StartOf(user[..|user| - 1])
  }

  lemma {:induction false} StartOfAt(user: seq<NodeConfig>)
    ensures var k := StartOf(user);
            && (k > 0 ==> user[k - 1].id == "listener")
            && forall j | k <= j < |user| :: user[j].id != "listener"
  {
    if user != [] && user[|user| - 1].id != "listener" {
      StartOfAt(user[..|user| - 1]);
    }
  }

  /** The first chain position from `k` on whose id is `client`. */
  function EndFrom(user: seq<NodeConfig>, k: nat): (e: nat)
    requires k <= |user|
    ensures k <= e <= |user| && ChainId(user, e) == "client"
    ensures forall j | k <= j < e :: user[j].id != "client"
    decreases |user| - k
  {
    if ChainId(user, k) == "client" then k else EndFrom(user, k + 1)
  }

  function Effective(user: seq<NodeConfig>): seq<NodeConfig> {
    user[StartOf(user)..EndFrom(user, StartOf(user))]
  }

  // ---- The compiled indexes of a synthesized policy ----

  lemma {:induction false} LastTargetAt(edges: seq<EdgeConfig>, k: nat, id: string, side: Side)
    requires k < |edges| && Leaves(edges[k], id, side)
    requires forall j | k < j < |edges| :: !Leaves(edges[j], id, side)
    ensures LastTarget(edges, id, side) == Some(ParseEdgeEndpoint(edges[k].target).node)
  {
    if k < |edges| - 1 {
      LastTargetAt(edges[..|edges| - 1], k, id, side);
    }
  }

  lemma {:induction false} NoLastTarget(edges: seq<EdgeConfig>, id: string, side: Side)
    requires forall j | 0 <= j < |edges| :: !Leaves(edges[j], id, side)
    ensures LastTarget(edges, id, side) == None
  {
    if edges != [] {
      NoLastTarget(edges[..|edges| - 1], id, side);
    }
  }

  lemma ChainEdgeSides(user: seq<NodeConfig>, k: nat, id: string)
    requires k <= |user|
    ensures Leaves(ChainEdge(user, k), id, OnSuccess) <==> id == BeforeChain(user, k)
    ensures !Leaves(ChainEdge(user, k), id, OnError)
    ensures ParseEdgeEndpoint(ChainEdge(user, k).target).node == ChainId(user, k)
  {
    ChainEdgeParts(user, k);
    assert IsSuccessPort(ChainPort(k)) && ChainPort(k) != "error";
  }

  lemma ErrorEdgeSides(n: NodeConfig, id: string)
    ensures !Leaves(ErrorEdge(n), id, OnSuccess)
    ensures Leaves(ErrorEdge(n), id, OnError) <==> id == n.id
    ensures ParseEdgeEndpoint(ErrorEdge(n).target).node == "client"
  {
    ErrorEdgeParts(n);
    assert !IsSuccessPort("error");
  }

  /** Which sides the synthesized edge `k` leaves. */
  lemma EdgeSides(user: seq<NodeConfig>, onError: OnErrorMode, k: nat, id: string)
    requires k < |SandboxEdges(user, onError)|
    ensures var e := SandboxEdges(user, onError)[k];
            if k <= |user| then
              (Leaves(e, id, OnSuccess) <==> id == BeforeChain(user, k)) && !Leaves(e, id, OnError)
              && ParseEdgeEndpoint(e.target).node == ChainId(user, k)
            else
              && onError == ToClient && k - |user| - 1 < |user|
              && !Leaves(e, id, OnSuccess) && (Leaves(e, id, OnError) <==> id == user[k - |user| - 1].id)
              && ParseEdgeEndpoint(e.target).node == "client"
  {
    if k <= |user| {
      assert SandboxEdges(user, onError)[k] == ChainEdge(user, k);
      ChainEdgeSides(user, k, id);
    } else {
      var n := user[k - |user| - 1];
      assert SandboxEdges(user, onError)[k] == ErrorEdge(n);
      ErrorEdgeSides(n, id);
    }
  }

  lemma SuccessTarget(user: seq<NodeConfig>, onError: OnErrorMode, k: nat)
    requires k < |user| && DistinctIds(user)
    ensures LastTarget(SandboxEdges(user, onError), user[k].id, OnSuccess) == Some(ChainId(user, k + 1))
  {
    var edges := SandboxEdges(user, onError);
    EdgeSides(user, onError, k + 1, user[k].id);
    forall j | k + 1 < j < |edges| ensures !Leaves(edges[j], user[k].id, OnSuccess) {
      EdgeSides(user, onError, j, user[k].id);
    }
    LastTargetAt(edges, k + 1, user[k].id, OnSuccess);
  }

  lemma EntryTarget(user: seq<NodeConfig>, onError: OnErrorMode, id: string)
    requires id == "listener"
    ensures LastTarget(SandboxEdges(user, onError), id, OnSuccess) == Some(ChainId(user, StartOf(user)))
  {
    var edges, k := SandboxEdges(user, onError), StartOf(user);
    StartOfAt(user);
    assert id == BeforeChain(user, k) && forall j | k < j <= |user| :: id != BeforeChain(user, j);
    EdgeSides(user, onError, k, id);
    forall j | k < j < |edges| ensures !Leaves(edges[j], id, OnSuccess) {
      EdgeSides(user, onError, j, id);
    }
    LastTargetAt(edges, k, id, OnSuccess);
  }

  lemma ErrorTarget(user: seq<NodeConfig>, onError: OnErrorMode, k: nat)
    requires k < |user| && DistinctIds(user)
    ensures LastTarget(SandboxEdges(user, onError), user[k].id, OnError)
         == if onError == ToClient then Some("client") else None
  {
    var edges, id := SandboxEdges(user, onError), user[k].id;
    if onError == ToClient {
      EdgeSides(user, onError, |user| + 1 + k, id);
      forall j | |user| + 1 + k < j < |edges| ensures !Leaves(edges[j], id, OnError) {
        EdgeSides(user, onError, j, id);
      }
      LastTargetAt(edges, |user| + 1 + k, id, OnError);
    } else {
      forall j | 0 <= j < |edges| ensures !Leaves(edges[j], id, OnError) {
        EdgeSides(user, onError, j, id);
      }
      NoLastTarget(edges, id, OnError);
    }
  }

  lemma {:induction false} LastNamedAt(nodes: seq<NodeConfig>, k: nat)
    requires k < |nodes| && forall j | k < j < |nodes| :: nodes[j].id != nodes[k].id
    ensures LastNamed(nodes, nodes[k].id) == Some(nodes[k])
  {
    if k < |nodes| - 1 {
      LastNamedAt(nodes[..|nodes| - 1], k);
    }
  }

  lemma UserNodeNamed(user: seq<NodeConfig>, onError: OnErrorMode, k: nat)
    requires k < |user| && DistinctIds(user) && user[k].id != "client"
    ensures LastNamed(SandboxPolicy(user, onError).nodes, user[k].id) == Some(user[k])
  {
    LastNamedAt(SandboxPolicy(user, onError).nodes, k + 1);
  }

  lemma OnlyClientTerminal(user: seq<NodeConfig>, onError: OnErrorMode, id: string)
    requires NoReservedTypes(user)
    ensures IsTerminal(SandboxPolicy(user, onError), id) <==> id == "client"
  {
    SandboxNodes(user, onError);
    assert CLIENT in SandboxPolicy(user, onError).nodes;
  }

  lemma {:induction false} ListenerIsFirst(nodes: seq<NodeConfig>)
    requires nodes != [] && nodes[0] == LISTENER && forall j | 1 <= j < |nodes| :: nodes[j].nodeType != "listener"
    ensures ListenerId(nodes) == Some("listener")
  {
    if |nodes| > 1 {
      ListenerIsFirst(nodes[..|nodes| - 1]);
    }
  }

  ghost predicate SandboxGraph<P, W>(
    g: CompiledGraph<P>, user: seq<NodeConfig>, onError: OnErrorMode, pl: Plugins<P, W>)
  {
    && NoReservedTypes(user) && DistinctIds(user)
    && Compile(SandboxPolicy(user, onError), pl) == Ok(g)
  }

  lemma EntryIsStart<P, W>(g: CompiledGraph<P>, user: seq<NodeConfig>, onError: OnErrorMode, pl: Plugins<P, W>)
    requires SandboxGraph(g, user, onError, pl)
    ensures g.entry == ChainId(user, StartOf(user)) && Buildable(user, pl)
  {
    var p := SandboxPolicy(user, onError);
    CompiledTables(p, pl, g);
    EntryTarget(user, onError, "listener");
    assert p.nodes[0] == LISTENER;
    forall j | 1 <= j < |p.nodes| ensures p.nodes[j].nodeType != "listener" {
      assert j <= |user| ==> p.nodes[j] in user;
    }
    ListenerIsFirst(p.nodes);
    SandboxNodes(user, onError);
  }

  /** The compiled tables at a user node that the walk can stand on. */
  ghost predicate TableRow<P, W>(
    g: CompiledGraph<P>, user: seq<NodeConfig>, onError: OnErrorMode, pl: Plugins<P, W>, k: nat)
    requires k < |user|
  {
    var id := user[k].id;
    && id in g.nodes && pl.create(user[k].nodeType, user[k].config) == Ok(g.nodes[id])
    && id !in g.terminals
    && Lookup(g.successEdges, id) == Some(ChainId(user, k + 1))
    && Lookup(g.errorEdges, id) == (if onError == ToClient then Some("client") else None)
    && g.catchAll == None
  }

  ghost predicate ClientRow<P, W>(g: CompiledGraph<P>, pl: Plugins<P, W>) {
    "client" in g.nodes && pl.create("client", map[]) == Ok(g.nodes["client"]) && "client" in g.terminals
  }

  /** All that the walk needs to know of the compiled graph. */
  ghost predicate SandboxTables<P, W>(
    g: CompiledGraph<P>, user: seq<NodeConfig>, onError: OnErrorMode, pl: Plugins<P, W>)
  {
    && ClientRow(g, pl)
    && forall k: nat {:trigger TableRow(g, user, onError, pl, k)} | k < |user| && user[k].id != "client" ::
         TableRow(g, user, onError, pl, k)
  }

  lemma TablesAt<P, W>(g: CompiledGraph<P>, user: seq<NodeConfig>, onError: OnErrorMode, pl: Plugins<P, W>, k: nat)
    requires SandboxGraph(g, user, onError, pl) && k < |user| && user[k].id != "client"
    ensures TableRow(g, user, onError, pl, k)
  {
    var p, id := SandboxPolicy(user, onError), user[k].id;
    CompiledTables(p, pl, g);
    UserNodeNamed(user, onError, k);
    OnlyClientTerminal(user, onError, id);
    SuccessTarget(user, onError, k);
    ErrorTarget(user, onError, k);
    assert Lookup(g.successEdges, id) == LastTarget(p.edges, id, OnSuccess);
    assert Lookup(g.errorEdges, id) == LastTarget(p.edges, id, OnError);
  }

  lemma TablesAtClient<P, W>(g: CompiledGraph<P>, user: seq<NodeConfig>, onError: OnErrorMode, pl: Plugins<P, W>)
    requires SandboxGraph(g, user, onError, pl)
    ensures ClientRow(g, pl)
  {
    var p := SandboxPolicy(user, onError);
    CompiledTables(p, pl, g);
    LastNamedAt(p.nodes, |p.nodes| - 1);
    OnlyClientTerminal(user, onError, "client");
  }

  lemma TablesHold<P, W>(g: CompiledGraph<P>, user: seq<NodeConfig>, onError: OnErrorMode, pl: Plugins<P, W>)
    requires SandboxGraph(g, user, onError, pl)
    ensures SandboxTables(g, user, onError, pl)
  {
    TablesAtClient(g, user, onError, pl);
    forall k: nat | k < |user| && user[k].id != "client" ensures TableRow(g, user, onError, pl, k) {
      TablesAt(g, user, onError, pl, k);
    }
  }

  // ---- The walk is the fold ----

  /** The client node passes the context through. */
  ghost predicate ClientPasses<P, W(!new)>(pl: Plugins<P, W>) {
    && pl.create("client", map[]).Ok?
    && forall ctx, w :: pl.exec(pl.create("client", map[]).value, ctx, w) == Done(ctx, w)
  }

  ghost predicate EndsAs<W>(t: seq<Move<W>>, ctx0: Context, w0: W, ctx: Context, w: W) {
    Halted(t) && FinalContext(ctx0, t) == ctx && FinalWorld(w0, t) == w
  }

  lemma EndsAsCons<W>(m: Move<W>, rest: seq<Move<W>>, ctx0: Context, w0: W, ctx: Context, w: W)
    requires EndsAs(rest, m.ctx, m.world, ctx, w)
    ensures EndsAs([m] + rest, ctx0, w0, ctx, w)
  {
  }

  lemma WalkAtClient<P, W(!new)>(
    g: CompiledGraph<P>, user: seq<NodeConfig>, onError: OnErrorMode, pl: Plugins<P, W>, ctx: Context, w: W, fuel: nat)
    requires SandboxTables(g, user, onError, pl) && ClientPasses(pl) && fuel > 0
    ensures EndsAs(Trail(g, pl, "client", ctx, w, fuel), ctx, w, ctx, w)
  {
    assert StepAt(g, pl, "client", ctx, w).next == None && StepAt(g, pl, "client", ctx, w).ctx == ctx;
  }

  /** What one user node does to the walk. */
  lemma StepAtUser<P, W>(
    g: CompiledGraph<P>, user: seq<NodeConfig>, onError: OnErrorMode, pl: Plugins<P, W>, k: nat, ctx: Context, w: W)
    requires SandboxTables(g, user, onError, pl) && k < |user| && user[k].id != "client"
    requires pl.create(user[k].nodeType, user[k].config).Ok?
    ensures var m := StepAt(g, pl, user[k].id, ctx, w);
            match pl.exec(pl.create(user[k].nodeType, user[k].config).value, ctx, w)
            case Done(c, w') => m.next == Some(ChainId(user, k + 1)) && m.ctx == c && m.world == w'
            case Failed(c, e, w') =>
              var c1 := c.(errors := c.errors + [GatewayError(user[k].id, e.code, e.message)]);
              && m.world == w'
              && m.next == (if onError == ToClient then Some("client") else None)
              && m.ctx == (if onError == ToClient then c1 else UnhandledContext(c1, pl.unhandledBody))
  {
    assert TableRow(g, user, onError, pl, k);
  }

  lemma FoldHead<P, W>(seg: seq<NodeConfig>, pl: Plugins<P, W>, ctx: Context, w: W)
    requires seg != [] && Buildable(seg, pl)
    ensures pl.create(seg[0].nodeType, seg[0].config).Ok? && Buildable(seg[1..], pl)
    ensures FoldPlugins(seg, pl, ctx, w) ==
      match pl.exec(pl.create(seg[0].nodeType, seg[0].config).value, ctx, w)
      case Done(c, w') => FoldPlugins(seg[1..], pl, c, w')
      case Failed(c, e, w') =>
        FirstFailure(c.(errors := c.errors + [GatewayError(seg[0].id, e.code, e.message)]), w')
  {
    assert seg[0] in seg;
  }

  /** The fold over a stretch of the list, by its first node. */
  lemma FoldFrom<P, W>(user: seq<NodeConfig>, k: nat, end: nat, pl: Plugins<P, W>, ctx: Context, w: W)
    requires k < end <= |user| && Buildable(user, pl)
    ensures pl.create(user[k].nodeType, user[k].config).Ok?
    ensures Buildable(user[k..end], pl) && Buildable(user[k + 1..end], pl)
    ensures FoldPlugins(user[k..end], pl, ctx, w) ==
      match pl.exec(pl.create(user[k].nodeType, user[k].config).value, ctx, w)
      case Done(c, w') => FoldPlugins(user[k + 1..end], pl, c, w')
      case Failed(c, e, w') =>
        FirstFailure(c.(errors := c.errors + [GatewayError(user[k].id, e.code, e.message)]), w')
  {
    var seg := user[k..end];
    assert seg[0] == user[k] && seg[1..] == user[k + 1..end] && forall n :: n in seg ==> n in user;
    FoldHead(seg, pl, ctx, w);
  }

  /** A failing user node ends the walk at once, or after the client has run. */
  lemma FailureEnds<P, W(!new)>(
    g: CompiledGraph<P>, user: seq<NodeConfig>, onError: OnErrorMode, pl: Plugins<P, W>,
    k: nat, ctx: Context, w: W, fuel: nat)
    requires SandboxTables(g, user, onError, pl) && ClientPasses(pl)
    requires k < |user| && user[k].id != "client" && fuel > 1
    requires pl.create(user[k].nodeType, user[k].config).Ok?
    requires pl.exec(pl.create(user[k].nodeType, user[k].config).value, ctx, w).Failed?
    ensures var m := StepAt(g, pl, user[k].id, ctx, w);
            EndsAs(Trail(g, pl, user[k].id, ctx, w, fuel), ctx, w, m.ctx, m.world)
  {
    var m := StepAt(g, pl, user[k].id, ctx, w);
    StepAtUser(g, user, onError, pl, k, ctx, w);
    if onError == ToClient {
      WalkAtClient(g, user, onError, pl, m.ctx, m.world, fuel - 1);
    }
    FirstMoveEnds(g, pl, user[k].id, ctx, w, fuel, m);
  }

  /** A walk that stops after its first move, or goes on to a walk that changes nothing. */
  lemma FirstMoveEnds<P, W>(
    g: CompiledGraph<P>, pl: Plugins<P, W>, id: string, ctx: Context, w: W, fuel: nat, m: Move<W>)
    requires fuel > 1 && m == StepAt(g, pl, id, ctx, w)
    requires m.next.Some? ==>
               EndsAs(Trail(g, pl, m.next.value, m.ctx, m.world, fuel - 1), m.ctx, m.world, m.ctx, m.world)
    ensures EndsAs(Trail(g, pl, id, ctx, w, fuel), ctx, w, m.ctx, m.world)
  {
    if m.next.Some? {
      EndsAsCons(m, Trail(g, pl, m.next.value, m.ctx, m.world, fuel - 1), ctx, w, m.ctx, m.world);
    }
  }

  /** A passing user node hands over to the next one. */
  lemma SuccessContinues<P, W(!new)>(
    g: CompiledGraph<P>, user: seq<NodeConfig>, onError: OnErrorMode, pl: Plugins<P, W>,
    k: nat, ctx: Context, w: W, fuel: nat, ctx': Context, w': W)
    requires SandboxTables(g, user, onError, pl)
    requires k < |user| && user[k].id != "client" && fuel > 0
    requires pl.create(user[k].nodeType, user[k].config).Ok?
    requires pl.exec(pl.create(user[k].nodeType, user[k].config).value, ctx, w).Done?
    requires var m := StepAt(g, pl, user[k].id, ctx, w);
             EndsAs(Trail(g, pl, ChainId(user, k + 1), m.ctx, m.world, fuel - 1), m.ctx, m.world, ctx', w')
    ensures EndsAs(Trail(g, pl, user[k].id, ctx, w, fuel), ctx, w, ctx', w')
  {
    var m := StepAt(g, pl, user[k].id, ctx, w);
    StepAtUser(g, user, onError, pl, k, ctx, w);
    EndsAsCons(m, Trail(g, pl, ChainId(user, k + 1), m.ctx, m.world, fuel - 1), ctx, w, ctx', w');
  }

  /** The run from node `id` delivers what a fold came to. */
  ghost predicate Delivers<P, W>(
    g: CompiledGraph<P>, pl: Plugins<P, W>, id: string, ctx: Context, w: W, fuel: nat, f: Folded<W>,
    onError: OnErrorMode)
  {
    EndsAs(Trail(g, pl, id, ctx, w, fuel), ctx, w, Delivered(f, onError, pl.unhandledBody), f.world)
  }

  lemma DeliversOnDone<P, W(!new)>(
    g: CompiledGraph<P>, user: seq<NodeConfig>, onError: OnErrorMode, pl: Plugins<P, W>,
    k: nat, ctx: Context, w: W, fuel: nat, out: Outcome<W>, f: Folded<W>)
    requires SandboxTables(g, user, onError, pl) && k < |user| && user[k].id != "client" && fuel > 0
    requires pl.create(user[k].nodeType, user[k].config).Ok?
    requires out == pl.exec(pl.create(user[k].nodeType, user[k].config).value, ctx, w) && out.Done?
    requires Delivers(g, pl, ChainId(user, k + 1), out.ctx, out.world, fuel - 1, f, onError)
    ensures Delivers(g, pl, user[k].id, ctx, w, fuel, f, onError)
  {
    StepAtUser(g, user, onError, pl, k, ctx, w);
    SuccessContinues(g, user, onError, pl, k, ctx, w, fuel, Delivered(f, onError, pl.unhandledBody), f.world);
  }

  lemma DeliversOnFailure<P, W(!new)>(
    g: CompiledGraph<P>, user: seq<NodeConfig>, onError: OnErrorMode, pl: Plugins<P, W>,
    k: nat, ctx: Context, w: W, fuel: nat, out: Outcome<W>)
    requires SandboxTables(g, user, onError, pl) && ClientPasses(pl)
    requires k < |user| && user[k].id != "client" && fuel > 1
    requires pl.create(user[k].nodeType, user[k].config).Ok?
    requires out == pl.exec(pl.create(user[k].nodeType, user[k].config).value, ctx, w) && out.Failed?
    ensures var c := out.ctx.(errors := out.ctx.errors + [GatewayError(user[k].id, out.error.code, out.error.message)]);
            Delivers(g, pl, user[k].id, ctx, w, fuel, FirstFailure(c, out.world), onError)
  {
    StepAtUser(g, user, onError, pl, k, ctx, w);
    FailureEnds(g, user, onError, pl, k, ctx, w, fuel);
  }

  /** The run from chain position `k` delivers the fold over the nodes up to `end`. */
  ghost predicate RunsAs<P, W>(
    g: CompiledGraph<P>, user: seq<NodeConfig>, onError: OnErrorMode, pl: Plugins<P, W>,
    k: nat, end: nat, ctx: Context, w: W, fuel: nat)
    requires k <= end <= |user|
  {
    && Buildable(user[k..end], pl)
    && Delivers(g, pl, ChainId(user, k), ctx, w, fuel, FoldPlugins(user[k..end], pl, ctx, w), onError)
  }

  lemma RunsAtEnd<P, W(!new)>(
    g: CompiledGraph<P>, user: seq<NodeConfig>, onError: OnErrorMode, pl: Plugins<P, W>,
    k: nat, ctx: Context, w: W, fuel: nat)
    requires SandboxTables(g, user, onError, pl) && ClientPasses(pl) && fuel > 0
    requires k <= |user| && ChainId(user, k) == "client"
    ensures RunsAs(g, user, onError, pl, k, k, ctx, w, fuel)
  {
    WalkAtClient(g, user, onError, pl, ctx, w, fuel);
  }

  lemma RunsOn<P, W(!new)>(
    g: CompiledGraph<P>, user: seq<NodeConfig>, onError: OnErrorMode, pl: Plugins<P, W>,
    k: nat, end: nat, ctx: Context, w: W, fuel: nat, out: Outcome<W>)
    requires SandboxTables(g, user, onError, pl) && ClientPasses(pl) && Buildable(user, pl)
    requires k < end <= |user| && user[k].id != "client" && fuel > 1
    requires pl.create(user[k].nodeType, user[k].config).Ok?
    requires out == pl.exec(pl.create(user[k].nodeType, user[k].config).value, ctx, w)
    requires out.Done? ==> RunsAs(g, user, onError, pl, k + 1, end, out.ctx, out.world, fuel - 1)
    ensures RunsAs(g, user, onError, pl, k, end, ctx, w, fuel)
  {
    FoldFrom(user, k, end, pl, ctx, w);
    if out.Done? {
      DeliversOnDone(g, user, onError, pl, k, ctx, w, fuel, out, FoldPlugins(user[k + 1..end], pl, out.ctx, out.world));
    } else {
      DeliversOnFailure(g, user, onError, pl, k, ctx, w, fuel, out);
    }
  }

  /** What node `k` hands over satisfies `runs` one position further, if it hands over at all. */
  ghost predicate NextRuns<P, W>(
    user: seq<NodeConfig>, pl: Plugins<P, W>, runs: (nat, Context, W, nat) -> bool, k: nat, ctx: Context, w: W,
    fuel: nat)
    requires k < |user| && fuel > 0
  {
    var made := pl.create(user[k].nodeType, user[k].config);
    made.Ok? ==>
      var out := pl.exec(made.value, ctx, w);
      out.Done? ==> runs(k + 1, out.ctx, out.world, fuel - 1)
  }

  /** Induction along the chain, from its end. */
  lemma {:induction false} ChainInduction<P, W(!new)>(
    user: seq<NodeConfig>, pl: Plugins<P, W>, runs: (nat, Context, W, nat) -> bool,
    k: nat, end: nat, ctx: Context, w: W, fuel: nat)
    requires k <= end <= |user| && fuel > end - k
    requires forall ctx: Context, w: W, fuel: nat | fuel > 0 :: runs(end, ctx, w, fuel)
    requires forall j: nat, ctx: Context, w: W, fuel: nat {:trigger NextRuns(user, pl, runs, j, ctx, w, fuel)}
               | k <= j < end && fuel > 1 && NextRuns(user, pl, runs, j, ctx, w, fuel) :: runs(j, ctx, w, fuel)
    ensures runs(k, ctx, w, fuel)
    decreases end - k
  {
    if k < end {
      var made := pl.create(user[k].nodeType, user[k].config);
      if made.Ok? && pl.exec(made.value, ctx, w).Done? {
        var out := pl.exec(made.value, ctx, w);
        ChainInduction(user, pl, runs, k + 1, end, out.ctx, out.world, fuel - 1);
      }
      assert NextRuns(user, pl, runs, k, ctx, w, fuel);
    }
  }

  ghost function RunsFrom<P, W>(
    g: CompiledGraph<P>, user: seq<NodeConfig>, onError: OnErrorMode, pl: Plugins<P, W>, end: nat)
    : (nat, Context, W, nat) -> bool
    requires end <= |user|
  {
    (j: nat, ctx: Context, w: W, fuel: nat) => j <= end && RunsAs(g, user, onError, pl, j, end, ctx, w, fuel)
  }

  lemma HandsOver<P, W>(
    user: seq<NodeConfig>, pl: Plugins<P, W>, runs: (nat, Context, W, nat) -> bool, k: nat, ctx: Context, w: W,
    fuel: nat, out: Outcome<W>)
    requires k < |user| && fuel > 0 && NextRuns(user, pl, runs, k, ctx, w, fuel)
    requires pl.create(user[k].nodeType, user[k].config).Ok?
    requires out == pl.exec(pl.create(user[k].nodeType, user[k].config).value, ctx, w) && out.Done?
    ensures runs(k + 1, out.ctx, out.world, fuel - 1)
  {
  }

  lemma RunsOnFrom<P, W(!new)>(
    g: CompiledGraph<P>, user: seq<NodeConfig>, onError: OnErrorMode, pl: Plugins<P, W>,
    runs: (nat, Context, W, nat) -> bool, j: nat, end: nat, ctx: Context, w: W, fuel: nat, out: Outcome<W>)
    requires SandboxTables(g, user, onError, pl) && ClientPasses(pl) && Buildable(user, pl)
    requires j < end <= |user| && user[j].id != "client" && fuel > 1
    requires pl.create(user[j].nodeType, user[j].config).Ok?
    requires out == pl.exec(pl.create(user[j].nodeType, user[j].config).value, ctx, w)
    requires runs(j, ctx, w, fuel) <==> RunsAs(g, user, onError, pl, j, end, ctx, w, fuel)
    requires out.Done? ==>
               && runs(j + 1, out.ctx, out.world, fuel - 1)
               && (runs(j + 1, out.ctx, out.world, fuel - 1) <==>
                   RunsAs(g, user, onError, pl, j + 1, end, out.ctx, out.world, fuel - 1))
    ensures runs(j, ctx, w, fuel)
  {
    RunsOn(g, user, onError, pl, j, end, ctx, w, fuel, out);
  }

  lemma RunsBefore<P, W(!new)>(
    g: CompiledGraph<P>, user: seq<NodeConfig>, onError: OnErrorMode, pl: Plugins<P, W>,
    runs: (nat, Context, W, nat) -> bool, j: nat, end: nat, ctx: Context, w: W, fuel: nat)
    requires SandboxTables(g, user, onError, pl) && ClientPasses(pl) && Buildable(user, pl)
    requires j < end <= |user| && user[j].id != "client" && fuel > 1
    requires runs == RunsFrom(g, user, onError, pl, end) && NextRuns(user, pl, runs, j, ctx, w, fuel)
    ensures runs(j, ctx, w, fuel)
  {
    assert user[j] in user;
    var out := pl.exec(pl.create(user[j].nodeType, user[j].config).value, ctx, w);
    if out.Done? {
      HandsOver(user, pl, runs, j, ctx, w, fuel, out);
    }
    RunsOnFrom(g, user, onError, pl, runs, j, end, ctx, w, fuel, out);
  }

  lemma WalkIsFold<P, W(!new)>(
    g: CompiledGraph<P>, user: seq<NodeConfig>, onError: OnErrorMode, pl: Plugins<P, W>,
    k: nat, end: nat, ctx: Context, w: W, fuel: nat)
    requires SandboxTables(g, user, onError, pl) && ClientPasses(pl) && Buildable(user, pl)
    requires k <= end <= |user| && ChainId(user, end) == "client" && fuel > end - k
    requires forall j | k <= j < end :: user[j].id != "client"
    ensures RunsAs(g, user, onError, pl, k, end, ctx, w, fuel)
  {
    var runs := RunsFrom(g, user, onError, pl, end);
    forall ctx: Context, w: W, fuel: nat | fuel > 0 ensures runs(end, ctx, w, fuel) {
      RunsAtEnd(g, user, onError, pl, end, ctx, w, fuel);
    }
    forall j: nat, ctx: Context, w: W, fuel: nat
      | k <= j < end && fuel > 1 && NextRuns(user, pl, runs, j, ctx, w, fuel)
      ensures runs(j, ctx, w, fuel)
    {
      RunsBefore(g, user, onError, pl, runs, j, end, ctx, w, fuel);
    }
    ChainInduction(user, pl, runs, k, end, ctx, w, fuel);
  }

  /** For every accepted list: the run of the synthesized policy is the fold over the effective nodes. */
  lemma SandboxRunIsFold<P, W(!new)>(
    g: CompiledGraph<P>, user: seq<NodeConfig>, onError: OnErrorMode, pl: Plugins<P, W>, ctx: Context, w: W, fuel: nat)
    requires SandboxGraph(g, user, onError, pl) && ClientPasses(pl) && fuel > |user|
    ensures Buildable(Effective(user), pl)
    ensures var f := FoldPlugins(Effective(user), pl, ctx, w);
            EndsAs(Trail(g, pl, g.entry, ctx, w, fuel), ctx, w, Delivered(f, onError, pl.unhandledBody), f.world)
  {
    EntryIsStart(g, user, onError, pl);
    TablesHold(g, user, onError, pl);
    WalkIsFold(g, user, onError, pl, StartOf(user), EndFrom(user, StartOf(user)), ctx, w, fuel);
  }

  /** The effective nodes are all the user's nodes exactly when none is called `listener` or `client`. */
  lemma EffectiveIsWholeIff(user: seq<NodeConfig>)
    ensures Effective(user) == user <==> forall n | n in user :: n.id != "listener" && n.id != "client"
  {
    StartOfAt(user);
    var s, e := StartOf(user), EndFrom(user, StartOf(user));
    assert |user[s..e]| == e - s && user[0..|user|] == user;
    if Effective(user) == user {
      assert s == 0 && e == |user|;
    } else if s > 0 {
      assert user[s - 1] in user;
    } else if e < |user| {
      assert user[e] in user;
    }
  }

  // ---- A behaviour that tells a whole run from a partial one ----

  /** Counts the nodes that run, except clients. */
  function Counting(): Plugins<bool, int> {
    Plugins(
      (nodeType, config) => Ok(nodeType == "client"),
      isClient => if isClient then "client" else "counted",
      (isClient, ctx, w) => Done(ctx, if isClient then w else w + 1),
      [])
  }

  lemma {:induction false} CountingFold(user: seq<NodeConfig>, ctx: Context, w: int)
    requires NoReservedTypes(user)
    ensures Buildable(user, Counting())
    ensures FoldPlugins(user, Counting(), ctx, w) == AllPassed(ctx, w + |user|)
    decreases user
  {
    if user != [] {
      assert user[0] in user;
      CountingFold(user[1..], ctx, w + 1);
    }
  }

  /** Exact: with an id `listener` or `client` in the list, the run of the synthesized policy is not the fold
      over the list for some plugin behaviour, though validation accepts it; without one it is, for all. */
  lemma ReservedIdSkipsPlugins(g: CompiledGraph<bool>, user: seq<NodeConfig>, onError: OnErrorMode, ctx: Context)
    requires SandboxGraph(g, user, onError, Counting())
    ensures FinalWorld(0, Trail(g, Counting(), g.entry, ctx, 0, |user| + 1)) == |Effective(user)|
    ensures Buildable(user, Counting()) && FoldPlugins(user, Counting(), ctx, 0).world == |user|
    ensures (exists n :: n in user && (n.id == "listener" || n.id == "client")) <==> |Effective(user)| < |user|
  {
    CountingFold(user, ctx, 0);
    CountingRun(g, user, onError, ctx);
    EffectiveIsShorter(user);
  }

  lemma RunWorld<P, W(!new)>(
    g: CompiledGraph<P>, user: seq<NodeConfig>, onError: OnErrorMode, pl: Plugins<P, W>, ctx: Context, w: W, fuel: nat)
    requires SandboxGraph(g, user, onError, pl) && ClientPasses(pl) && fuel > |user|
    ensures Buildable(Effective(user), pl)
    ensures FinalWorld(w, Trail(g, pl, g.entry, ctx, w, fuel)) == FoldPlugins(Effective(user), pl, ctx, w).world
  {
    SandboxRunIsFold(g, user, onError, pl, ctx, w, fuel);
  }

  lemma CountingClientPasses()
    ensures ClientPasses(Counting())
  {
  }

  lemma EffectiveTypes(user: seq<NodeConfig>)
    requires NoReservedTypes(user)
    ensures NoReservedTypes(Effective(user))
  {
    assert forall n :: n in Effective(user) ==> n in user;
  }

  lemma CountingRun(g: CompiledGraph<bool>, user: seq<NodeConfig>, onError: OnErrorMode, ctx: Context)
    requires SandboxGraph(g, user, onError, Counting())
    ensures FinalWorld(0, Trail(g, Counting(), g.entry, ctx, 0, |user| + 1)) == |Effective(user)|
  {
    EffectiveTypes(user);
    CountingFold(Effective(user), ctx, 0);
    CountingClientPasses();
    RunWorld(g, user, onError, Counting(), ctx, 0, |user| + 1);
  }

  lemma EffectiveIsShorter(user: seq<NodeConfig>)
    ensures |Effective(user)| < |user| <==> exists n :: n in user && (n.id == "listener" || n.id == "client")
  {
    EffectiveIsWholeIff(user);
    assert |Effective(user)| == |user| ==> Effective(user) == user[0..|user|] == user;
  }

  /** What is delivered, in the fields of the context that the fold ends with. */
  ghost predicate DeliveredAs<W>(f: Folded<W>, onError: OnErrorMode, body: Str, final: Context) {
    if f.AllPassed? || onError == ToClient then final == f.ctx
    else
      && final.response.status == 500
      && final.response.headers == f.ctx.response.headers["content-type" := ["application/json"]]
      && final.response.body == body
      && final.request == f.ctx.request && final.message == f.ctx.message && final.errors == f.ctx.errors
  }

  lemma DeliveredSpelled<W>(f: Folded<W>, onError: OnErrorMode, body: Str)
    ensures DeliveredAs(f, onError, body, Delivered(f, onError, body))
  {
  }

  /** End to end: for distinct, dot-free ids other than `listener` and `client` the synthesized policy
      validates, compiles whenever its plugins can be built, and runs the plugins in order until the first
      failure, which reaches the client with its own response or becomes the generic 500. */
  lemma SandboxEndToEnd<P, W(!new)>(
    user: seq<NodeConfig>, onError: OnErrorMode, pl: Plugins<P, W>, ctx: Context, w: W, fuel: nat)
    requires user != [] && DistinctIds(user) && DotFree(user) && NoReservedTypes(user)
    requires forall n | n in user :: n.id != "listener" && n.id != "client"
    requires Buildable(user, pl) && pl.create("listener", map[]).Ok? && ClientPasses(pl) && fuel > |user|
    ensures Validation.Violations(SandboxPolicy(user, onError)) == []
    ensures var g := Compile(SandboxPolicy(user, onError), pl);
            var f := FoldPlugins(user, pl, ctx, w);
            && g.Ok?
            && var t := Trail(g.value, pl, g.value.entry, ctx, w, fuel);
               && Halted(t) && FinalWorld(w, t) == f.world
               && DeliveredAs(f, onError, pl.unhandledBody, FinalContext(ctx, t))
  {
    SandboxValidatesIff(user, onError);
    SandboxCompiles(user, onError, pl);
    EffectiveIsWholeIff(user);
    SandboxRunIsFold(Compile(SandboxPolicy(user, onError), pl).value, user, onError, pl, ctx, w, fuel);
    DeliveredSpelled(FoldPlugins(user, pl, ctx, w), onError, pl.unhandledBody);
  }

  lemma SandboxPortsKnown(user: seq<NodeConfig>, onError: OnErrorMode, e: EdgeConfig)
    requires e in SandboxEdges(user, onError)
    ensures KnownPort(e)
  {
    SandboxEdgeCases(user, onError, e);
    if k: nat :| 0 <= k <= |user| && e == ChainEdge(user, k) {
      ChainEdgeParts(user, k);
    } else {
      var n :| n in user && e == ErrorEdge(n);
      ErrorEdgeParts(n);
    }
  }

  lemma SandboxCompilable<P, W>(user: seq<NodeConfig>, onError: OnErrorMode, pl: Plugins<P, W>, p: PolicyConfig)
    requires p.nodes == SandboxPolicy(user, onError).nodes && p.edges == SandboxEdges(user, onError)
    requires Buildable(user, pl) && pl.create("listener", map[]).Ok? && pl.create("client", map[]).Ok?
    ensures Compilable(p, pl)
  {
    SandboxNodes(user, onError);
    assert LISTENER in p.nodes;
    forall e | e in p.edges ensures KnownPort(e) {
      SandboxPortsKnown(user, onError, e);
    }
  }

  lemma SandboxCompiles<P, W>(user: seq<NodeConfig>, onError: OnErrorMode, pl: Plugins<P, W>)
    requires Buildable(user, pl) && pl.create("listener", map[]).Ok? && pl.create("client", map[]).Ok?
    ensures Compile(SandboxPolicy(user, onError), pl).Ok?
  {
    SandboxCompilable(user, onError, pl, SandboxPolicy(user, onError));
    CompilesIff(SandboxPolicy(user, onError), pl);
  }
}
