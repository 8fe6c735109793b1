/** The running gateway: its configuration, the route table compiled from it, and the one way to swap both. */
module GatewayState {
  import Consumers
  import opened Wrappers
  import opened Policy
  import opened Engine
  import opened Reference
  import opened Validation
  import opened Trace
  import opened WalkSafety

  /** `rest` stands for the fields that neither the compiler nor the store looks at. */
  datatype RouteConfig = RouteConfig(name: string, policy: string, rest: string)

  type ConsumerConfig = Consumers.ConsumerConfig

  datatype GatewayConfig = GatewayConfig(
    routes: seq<RouteConfig>, policies: seq<PolicyConfig>, consumers: seq<ConsumerConfig>)

  /** A route with the compiled graph of the policy it names. */
  datatype Bound<+P> = Bound(route: RouteConfig, graph: CompiledGraph<P>)

  datatype ApplyError =
    | BadConsumers(message: string)
    | InvalidPolicy(policy: string, violations: seq<Violation>)
    | NotCompiled(error: CompileError)
    | UnknownPolicy(route: string, policy: string)

  // ---- Compiling a configuration ----

  /** One policy on its own: validated first, then compiled. */
  function CompileOne<P, W>(p: PolicyConfig, pl: Plugins<P, W>): Result<CompiledGraph<P>, ApplyError> {
    if Violations(p) != [] then Err(InvalidPolicy(p.name, Violations(p)))
    else match Compile(p, pl)
      case Err(e) => Err(NotCompiled(e))
      case Ok(g) => Ok(g)
  }

  function Compiler<P, W>(pl: Plugins<P, W>): PolicyConfig -> Result<CompiledGraph<P>, ApplyError> {
    p => CompileOne(p, pl)
  }

  /** The policy map after the policies of a list were inserted one by one, or the first error. */
  function IndexPolicies<G>(ps: seq<PolicyConfig>, one: PolicyConfig -> Result<G, ApplyError>)
    : Result<map<string, G>, ApplyError>
  {
    if ps == [] then Ok(map[])
    else
      var p := ps[|ps| - 1];
      match IndexPolicies(ps[..|ps| - 1], one)
      case Err(e) => Err(e)
      case Ok(m) =>
        match one(p)
        case Err(e) => Err(e)
        case Ok(g) => Ok(m[p.name := g])
  }

  function CompilePolicies<P, W>(ps: seq<PolicyConfig>, pl: Plugins<P, W>)
    : Result<map<string, CompiledGraph<P>>, ApplyError>
  {
    IndexPolicies(ps, Compiler(pl))
  }

  function BindRoutes<P>(routes: seq<RouteConfig>, graphs: map<string, CompiledGraph<P>>)
    : Result<seq<Bound<P>>, ApplyError>
    decreases |routes|
  {
    if routes == [] then Ok([])
    else
      var r := routes[|routes| - 1];
      match BindRoutes(routes[..|routes| - 1], graphs)
      case Err(e) => Err(e)
      case Ok(bound) =>
        if r.policy in graphs then Ok(bound + [Bound(r, graphs[r.policy])]) else Err(UnknownPolicy(r.name, r.policy))
  }

  function CompileRoutes<P, W>(gw: GatewayConfig, pl: Plugins<P, W>): Result<seq<Bound<P>>, ApplyError> {
    match CompilePolicies(gw.policies, pl)
    case Err(e) => Err(e)
    case Ok(graphs) => BindRoutes(gw.routes, graphs)
  }

  lemma {:induction false} PoliciesErrorIsFirst<G>(
    ps: seq<PolicyConfig>, k: nat, one: PolicyConfig -> Result<G, ApplyError>)
    requires k <= |ps| && IndexPolicies(ps[..k], one).Err?
    ensures IndexPolicies(ps, one) == IndexPolicies(ps[..k], one)
    decreases |ps|
  {
    if k == |ps| {
      assert ps[..k] == ps;
    } else {
      assert ps[..|ps| - 1][..k] == ps[..k];
      PoliciesErrorIsFirst(ps[..|ps| - 1], k, one);
    }
  }

  lemma {:induction false} RoutesErrorIsFirst<P>(
    routes: seq<RouteConfig>, k: nat, graphs: map<string, CompiledGraph<P>>)
    requires k <= |routes| && BindRoutes(routes[..k], graphs).Err?
    ensures BindRoutes(routes, graphs) == BindRoutes(routes[..k], graphs)
    decreases |routes|
  {
    if k == |routes| {
      assert routes[..k] == routes;
    } else {
      assert routes[..|routes| - 1][..k] == routes[..k];
      RoutesErrorIsFirst(routes[..|routes| - 1], k, graphs);
    }
  }

  method CompileAllPolicies<P, W>(ps: seq<PolicyConfig>, pl: Plugins<P, W>)
    returns (r: Result<map<string, CompiledGraph<P>>, ApplyError>)
    ensures r == CompilePolicies(ps, pl)
  {
    var graphs: map<string, CompiledGraph<P>> := map[];
    assert ps[..|ps|] == ps;
    for i := 0 to |ps|
      invariant CompilePolicies(ps[..i], pl) == Ok(graphs)
    {
      var p := ps[i];
      assert ps[..i + 1][..i] == ps[..i];
      var errors := ValidatePolicy(p);
      if errors != [] {
        PoliciesErrorIsFirst(ps, i + 1, Compiler(pl));
        return Err(InvalidPolicy(p.name, errors));
      }
      var compiled := CompilePolicy(p, pl);
      if compiled.Err? {
        PoliciesErrorIsFirst(ps, i + 1, Compiler(pl));
        return Err(NotCompiled(compiled.error));
      }
      graphs := graphs[p.name := compiled.value];
    }
    r := Ok(graphs);
  }

  method BindAllRoutes<P>(routes: seq<RouteConfig>, graphs: map<string, CompiledGraph<P>>)
    returns (r: Result<seq<Bound<P>>, ApplyError>)
    ensures r == BindRoutes(routes, graphs)
  {
    var bound: seq<Bound<P>> := [];
    assert routes[..|routes|] == routes;
    for i := 0 to |routes|
      invariant BindRoutes(routes[..i], graphs) == Ok(bound)
    {
      assert routes[..i + 1][..i] == routes[..i];
      if routes[i].policy !in graphs {
        RoutesErrorIsFirst(routes, i + 1, graphs);
        return Err(UnknownPolicy(routes[i].name, routes[i].policy));
      }
      bound := bound + [Bound(routes[i], graphs[routes[i].policy])];
    }
    r := Ok(bound);
  }

  method CompileGateway<P, W>(gw: GatewayConfig, pl: Plugins<P, W>) returns (r: Result<seq<Bound<P>>, ApplyError>)
    ensures r == CompileRoutes(gw, pl)
  {
    var graphs := CompileAllPolicies(gw.policies, pl);
    if graphs.Err? {
      return Err(graphs.error);
    }
    r := BindAllRoutes(gw.routes, graphs.value);
  }

  // ---- What a compiled table holds, read off the configuration ----

  /** The last policy with a name. */
  function LastPolicy(ps: seq<PolicyConfig>, name: string): Option<PolicyConfig> {
    if ps == [] then None
    else if ps[|ps| - 1].name == name then Some(ps[|ps| - 1])
    else LastPolicy(ps[..|ps| - 1], name)
  }

  /** Every policy is well-formed and compilable, also one that another of the same name replaces, and every
      route names a policy that exists. */
  ghost predicate Usable<P, W>(gw: GatewayConfig, pl: Plugins<P, W>) {
    && (forall p | p in gw.policies :: WellFormed(p) && Compilable(p, pl))
    && (forall r | r in gw.routes :: LastPolicy(gw.policies, r.policy).Some?)
  }

  lemma CompileOneIff<P, W>(p: PolicyConfig, pl: Plugins<P, W>)
    ensures CompileOne(p, pl).Ok? <==> WellFormed(p) && Compilable(p, pl)
    ensures CompileOne(p, pl).Ok? ==> Compile(p, pl) == Ok(CompileOne(p, pl).value)
  {
    ValidIffWellFormed(p);
    CompilesIff(p, pl);
  }

  lemma {:induction false} PoliciesIndexed<G>(ps: seq<PolicyConfig>, one: PolicyConfig -> Result<G, ApplyError>)
    ensures IndexPolicies(ps, one).Ok? <==> forall p | p in ps :: one(p).Ok?
    ensures var r := IndexPolicies(ps, one);
            r.Ok? ==> forall name: string ::
              && (name in r.value <==> LastPolicy(ps, name).Some?)
              && (name in r.value ==> one(LastPolicy(ps, name).value) == Ok(r.value[name]))
  {
    if ps != [] {
      var init, p := ps[..|ps| - 1], ps[|ps| - 1];
      PoliciesIndexed(init, one);
      assert ps == init + [p];
    }
  }

  lemma PoliciesCompiled<P, W>(ps: seq<PolicyConfig>, pl: Plugins<P, W>)
    ensures CompilePolicies(ps, pl).Ok? <==> forall p | p in ps :: WellFormed(p) && Compilable(p, pl)
    ensures var r := CompilePolicies(ps, pl);
            r.Ok? ==> forall name: string ::
              && (name in r.value <==> LastPolicy(ps, name).Some?)
              && (name in r.value ==> Compile(LastPolicy(ps, name).value, pl) == Ok(r.value[name]))
  {
    PoliciesIndexed(ps, Compiler(pl));
    forall p ensures CompileOne(p, pl).Ok? <==> WellFormed(p) && Compilable(p, pl)
      ensures CompileOne(p, pl).Ok? ==> Compile(p, pl) == Ok(CompileOne(p, pl).value)
    {
      CompileOneIff(p, pl);
    }
  }

  lemma {:induction false} LastPolicyListed(ps: seq<PolicyConfig>, name: string)
    ensures LastPolicy(ps, name).Some? ==> LastPolicy(ps, name).value in ps && LastPolicy(ps, name).value.name == name
    ensures LastPolicy(ps, name).Some? <==> exists p :: p in ps && p.name == name
  {
    if ps != [] {
      LastPolicyListed(ps[..|ps| - 1], name);
      assert ps == ps[..|ps| - 1] + [ps[|ps| - 1]];
    }
  }

  lemma {:induction false} RoutesBound<P>(routes: seq<RouteConfig>, graphs: map<string, CompiledGraph<P>>)
    ensures BindRoutes(routes, graphs).Ok? <==> forall r | r in routes :: r.policy in graphs
    ensures var r := BindRoutes(routes, graphs);
            r.Ok? ==> |r.value| == |routes| && forall i | 0 <= i < |routes| ::
              routes[i].policy in graphs && r.value[i] == Bound(routes[i], graphs[routes[i].policy])
    decreases |routes|
  {
    if routes != [] {
      RoutesBound(routes[..|routes| - 1], graphs);
      assert routes == routes[..|routes| - 1] + [routes[|routes| - 1]];
    }
  }

  /** A configuration compiles exactly when it is usable. The table then has the routes in declaration order,
      each with the graph of the last policy of the name it refers to. */
  lemma RouteTableMeaning<P, W>(gw: GatewayConfig, pl: Plugins<P, W>)
    ensures CompileRoutes(gw, pl).Ok? <==> Usable(gw, pl)
    ensures var r := CompileRoutes(gw, pl);
            r.Ok? ==> |r.value| == |gw.routes| && forall i | 0 <= i < |gw.routes| ::
              && r.value[i].route == gw.routes[i]
              && LastPolicy(gw.policies, gw.routes[i].policy).Some?
              && Compile(LastPolicy(gw.policies, gw.routes[i].policy).value, pl) == Ok(r.value[i].graph)
  {
    PoliciesCompiled(gw.policies, pl);
    var graphs := CompilePolicies(gw.policies, pl);
    if graphs.Ok? {
      RoutesBound(gw.routes, graphs.value);
    }
  }

  /** Whatever request comes in, a served graph whose targets have at most one dot never walks to a node that
      does not exist. */
  lemma ServedGraphsNeverMiss<P, W>(
    gw: GatewayConfig, pl: Plugins<P, W>, i: nat, ctx: Context, w: W, fuel: nat)
    requires CompileRoutes(gw, pl).Ok? && i < |gw.routes|
    requires forall p | p in gw.policies :: TargetsHaveAtMostOneDot(p)
    ensures var table := CompileRoutes(gw, pl).value;
            i < |table| && !Hits(Trail(table[i].graph, pl, table[i].graph.entry, ctx, w, fuel), NodeNotFound)
  {
    RouteTableMeaning(gw, pl);
    LastPolicyListed(gw.policies, gw.routes[i].policy);
    var p := LastPolicy(gw.policies, gw.routes[i].policy).value;
    ValidIffWellFormed(p);
    ValidatedNeverMissing(p, pl, CompileRoutes(gw, pl).value[i].graph, ctx, w, fuel);
  }

  // ---- The shared state ----

  /** What compiling needs from outside: the plugins, and the consumer store's constructor. */
  datatype Services<!P, !W, !S> = Services(
    plugins: Plugins<P, W>,
    buildStore: seq<ConsumerConfig> -> Result<S, string>)

  /** The error of `validate_gateway`, which is also the error of `apply_gateway`. */
  function Rejection<P, W, S>(gw: GatewayConfig, services: Services<P, W, S>): Option<ApplyError> {
    match services.buildStore(gw.consumers)
    case Err(e) => Some(BadConsumers(e))
    case Ok(_) =>
      match CompileRoutes(gw, services.plugins)
      case Err(e) => Some(e)
      case Ok(_) => None
  }

  ghost predicate Accepted<P, W, S>(gw: GatewayConfig, services: Services<P, W, S>) {
    services.buildStore(gw.consumers).Ok? && Usable(gw, services.plugins)
  }

  lemma AcceptedIff<P, W, S>(gw: GatewayConfig, services: Services<P, W, S>)
    ensures Rejection(gw, services).None? <==> Accepted(gw, services)
  {
    RouteTableMeaning(gw, services.plugins);
  }

  class SharedState<P, W, S> {
    const services: Services<P, W, S>
    var consumers: S
    var gateway: GatewayConfig
    var routes: seq<Bound<P>>

    /** The running parts belong together. */
    ghost predicate Valid()
      reads this
    {
      services.buildStore(gateway.consumers) == Ok(consumers) && CompileRoutes(gateway, services.plugins) == Ok(routes)
    }

    /** `SharedState::new` after its checks passed. */
    constructor (services: Services<P, W, S>, gateway: GatewayConfig, consumers: S, routes: seq<Bound<P>>)
      requires services.buildStore(gateway.consumers) == Ok(consumers)
      requires CompileRoutes(gateway, services.plugins) == Ok(routes)
      ensures Valid() && this.services == services && this.gateway == gateway
    {
      this.services, this.gateway, this.consumers, this.routes := services, gateway, consumers, routes;
    }

    static method New(services: Services<P, W, S>, gateway: GatewayConfig)
      returns (r: Result<SharedState<P, W, S>, ApplyError>)
      ensures r.Err? <==> Rejection(gateway, services).Some?
      ensures r.Err? ==> Rejection(gateway, services) == Some(r.error)
      ensures r.Ok? ==> fresh(r.value) && r.value.Valid() && r.value.gateway == gateway && r.value.services == services
    {
      var store := services.buildStore(gateway.consumers);
      if store.Err? {
        return Err(BadConsumers(store.error));
      }
      var table := CompileGateway(gateway, services.plugins);
      if table.Err? {
        return Err(table.error);
      }
      var state := new SharedState(services, gateway, store.value, table.value);
      r := Ok(state);
    }

    /** All fallible work comes before the first write: a rejected configuration leaves every part as it was,
        an accepted one replaces all of them. */
    method ApplyGateway(newGw: GatewayConfig) returns (r: Result<(), ApplyError>)
      requires Valid()
      modifies this
      ensures Valid()
      ensures r == (match Rejection(newGw, services) case None => Ok(()) case Some(e) => Err(e))
      ensures r.Ok? ==> gateway == newGw
      ensures r.Err? ==> gateway == old(gateway) && routes == old(routes) && consumers == old(consumers)
    {
      var store := services.buildStore(newGw.consumers);
      if store.Err? {
        return Err(BadConsumers(store.error));
      }
      var table := CompileGateway(newGw, services.plugins);
      if table.Err? {
        return Err(table.error);
      }
      consumers := store.value;
      gateway := newGw;
      routes := table.value;
      r := Ok(());
    }

    /** The same checks with nothing swapped. */
    method ValidateGateway(gw: GatewayConfig) returns (r: Result<(), ApplyError>)
      ensures r == (match Rejection(gw, services) case None => Ok(()) case Some(e) => Err(e))
    {
      var store := services.buildStore(gw.consumers);
      if store.Err? {
        return Err(BadConsumers(store.error));
      }
      var table := CompileGateway(gw, services.plugins);
      if table.Err? {
        return Err(table.error);
      }
      r := Ok(());
    }
  }
}
