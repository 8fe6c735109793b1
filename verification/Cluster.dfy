/** Several gateway nodes on one etcd prefix, as interleaved steps: single puts and deletes on the store, and on
    every node a poller and any number of admin commits, each going through the phases of `apply_gateway`. */
module Cluster {
  import opened Wrappers
  import opened Bytes

  /** What the steps need to know of configurations: loading one from the store, whether it passes validation,
      the route table and the consumer store made from it. */
  datatype Site<!G, !R, !C> = Site(
    load: Keyspace -> Option<G>,
    accepts: G -> bool,
    compile: G -> R,
    consumersOf: G -> C)

  // ---- One node ----

  /** Where an apply stands; between `Stored` and `Holding` it waits for the gateway lock. */
  datatype Phase = Checked | Stored | Holding | Returned

  /** `order` is the iteration order of the hash maps when the poller wrote its fingerprint. */
  datatype Task<+G> = Task(gw: G, order: nat, phase: Phase)

  /** The serialized configuration: it determines the configuration, but not the other way round. */
  datatype Fingerprint<+G> = Fingerprint(gw: G, order: nat)

  /** `adminSince` is history: an admin commit wrote the gateway after the poller last did. */
  datatype Node<+G, +R, +C> = Node(
    gateway: G, routes: R, consumers: C,
    lock: Option<nat>, last: Option<Fingerprint<G>>, tasks: map<nat, Task<G>>,
    adminSince: bool)

  const POLLER: nat := 0

  datatype Act<+G> =
    | Poll(order: nat)
    | Admin(id: nat, gw: G)
    | StoreConsumers(id: nat)
    | WriteGateway(id: nat)
    | WriteRoutes(id: nat)
    | Remember

  ghost predicate At<G, R, C>(nd: Node<G, R, C>, id: nat, phase: Phase) {
    id in nd.tasks && nd.tasks[id].phase == phase
  }

  /** Loads, compares the fingerprint, and does the fallible half of the apply. */
  ghost function PollStep<G, R, C>(site: Site<G, R, C>, kv: Keyspace, nd: Node<G, R, C>, order: nat): Node<G, R, C> {
    match site.load(kv)
    case None => nd
    case Some(gw) =>
      if nd.last == Some(Fingerprint(gw, order)) || !site.accepts(gw) then nd
      else nd.(tasks := nd.tasks[POLLER := Task(gw, order, Checked)])
  }

  /** One step of a node; `None` when it cannot be taken. */
  ghost function NodeStep<G, R, C>(site: Site<G, R, C>, kv: Keyspace, nd: Node<G, R, C>, act: Act<G>)
    : Option<Node<G, R, C>>
  {
    match act
    case Poll(order) =>
      if POLLER in nd.tasks then None else Some(PollStep(site, kv, nd, order))
    case Admin(id, gw) =>
      if id == POLLER || id in nd.tasks || !site.accepts(gw) then None
      else Some(nd.(tasks := nd.tasks[id := Task(gw, 0, Checked)]))
    case StoreConsumers(id) =>
      if !At(nd, id, Checked) then None
      else Some(nd.(consumers := site.consumersOf(nd.tasks[id].gw),
                    tasks := nd.tasks[id := nd.tasks[id].(phase := Stored)]))
    case WriteGateway(id) =>
      if !At(nd, id, Stored) || nd.lock.Some? then None
      else Some(nd.(gateway := nd.tasks[id].gw, lock := Some(id), adminSince := id != POLLER,
                    tasks := nd.tasks[id := nd.tasks[id].(phase := Holding)]))
    case WriteRoutes(id) =>
      if !At(nd, id, Holding) then None
      else Some(nd.(routes := site.compile(nd.tasks[id].gw), lock := None,
                    tasks := if id == POLLER then nd.tasks[id := nd.tasks[id].(phase := Returned)]
                             else nd.tasks - {id}))
    case Remember =>
      if !At(nd, POLLER, Returned) then None
      else Some(nd.(last := Some(Fingerprint(nd.tasks[POLLER].gw, nd.tasks[POLLER].order)),
                    tasks := nd.tasks - {POLLER}))
  }

  // ---- What every step of a node keeps ----

  /** The poller has written the gateway and not yet remembered it. */
  ghost predicate PollerWrote<G, R, C>(nd: Node<G, R, C>) {
    At(nd, POLLER, Holding) || At(nd, POLLER, Returned)
  }

  /** Unless an admin commit came in between, the gateway is what the poller wrote last. */
  ghost predicate Synced<G, R, C>(nd: Node<G, R, C>) {
    !nd.adminSince ==>
      if PollerWrote(nd) then nd.gateway == nd.tasks[POLLER].gw
      else nd.last.Some? ==> nd.gateway == nd.last.value.gw
  }

  ghost predicate Locked<G, R, C>(nd: Node<G, R, C>) {
    && (forall id | At(nd, id, Holding) :: nd.lock == Some(id) && nd.gateway == nd.tasks[id].gw)
    && (nd.lock.Some? ==> At(nd, nd.lock.value, Holding))
  }

  /** The gateway always passed validation; whenever its lock is free the routes are compiled from it; and the
      routes being served always come from some configuration that passed. */
  ghost predicate Consistent<G(!new), R, C>(site: Site<G, R, C>, nd: Node<G, R, C>) {
    && site.accepts(nd.gateway)
    && (nd.lock.None? ==> nd.routes == site.compile(nd.gateway))
    && (exists g :: site.accepts(g) && nd.routes == site.compile(g))
  }

  ghost predicate NodeInv<G(!new), R, C>(site: Site<G, R, C>, nd: Node<G, R, C>) {
    && Consistent(site, nd) && Locked(nd) && Synced(nd)
    && (forall id | id in nd.tasks :: site.accepts(nd.tasks[id].gw))
  }

  ghost function Boot<G, R, C>(site: Site<G, R, C>, gw: G): Node<G, R, C> {
    Node(gw, site.compile(gw), site.consumersOf(gw), None, None, map[], false)
  }

  lemma WriteGatewayKeeps<G(!new), R, C>(site: Site<G, R, C>, kv: Keyspace, nd: Node<G, R, C>, act: Act<G>)
    requires act.WriteGateway? && NodeInv(site, nd) && NodeStep(site, kv, nd, act).Some?
    ensures NodeInv(site, NodeStep(site, kv, nd, act).value)
  {
  }

  lemma WriteRoutesKeeps<G(!new), R, C>(site: Site<G, R, C>, kv: Keyspace, nd: Node<G, R, C>, act: Act<G>)
    requires act.WriteRoutes? && NodeInv(site, nd) && NodeStep(site, kv, nd, act).Some?
    ensures NodeInv(site, NodeStep(site, kv, nd, act).value)
  {
  }

  lemma NodeStepKeeps<G(!new), R, C>(site: Site<G, R, C>, kv: Keyspace, nd: Node<G, R, C>, act: Act<G>)
    requires NodeInv(site, nd) && NodeStep(site, kv, nd, act).Some?
    ensures NodeInv(site, NodeStep(site, kv, nd, act).value)
  {
    match act
    case Poll(_) =>
    case Admin(_, _) =>
    case StoreConsumers(_) =>
    case WriteGateway(_) => WriteGatewayKeeps(site, kv, nd, act);
    case WriteRoutes(_) => WriteRoutesKeeps(site, kv, nd, act);
    case Remember =>
  }

  // ---- The cluster ----

  datatype System<+G, +R, +C> = System(kv: Keyspace, nodes: seq<Node<G, R, C>>)

  datatype Event<+G> = Put(key: Str, value: Str) | Delete(key: Str) | On(n: nat, act: Act<G>)

  ghost function Step<G, R, C>(site: Site<G, R, C>, s: System<G, R, C>, e: Event<G>): Option<System<G, R, C>> {
    match e
    case Put(k, v) => Some(s.(kv := s.kv[k := v]))
    case Delete(k) => Some(s.(kv := s.kv - {k}))
    case On(n, act) =>
      if n >= |s.nodes| then None
      else match NodeStep(site, s.kv, s.nodes[n], act)
        case None => None
        case Some(nd) => Some(s.(nodes := s.nodes[n := nd]))
  }

  ghost function Run<G, R, C>(site: Site<G, R, C>, s: System<G, R, C>, es: seq<Event<G>>): Option<System<G, R, C>>
    decreases es
  {
    if es == [] then Some(s)
    else match Step(site, s, es[0])
      case None => None
      case Some(next) => Run(site, next, es[1..])
  }

  ghost predicate Inv<G(!new), R, C>(site: Site<G, R, C>, s: System<G, R, C>) {
    forall n | 0 <= n < |s.nodes| :: NodeInv(site, s.nodes[n])
  }

  /** Every interleaving of store writes, polls and admin commits keeps every node consistent. */
  lemma {:induction false} EveryRunIsConsistent<G(!new), R, C>(
    site: Site<G, R, C>, s: System<G, R, C>, es: seq<Event<G>>)
    requires Inv(site, s) && Run(site, s, es).Some?
    ensures Inv(site, Run(site, s, es).value) && |Run(site, s, es).value.nodes| == |s.nodes|
    decreases es
  {
    if es != [] {
      if es[0].On? {
        NodeStepKeeps(site, s.kv, s.nodes[es[0].n], es[0].act);
      }
      EveryRunIsConsistent(site, Step(site, s, es[0]).value, es[1..]);
    }
  }

  /** A node started on an accepted configuration. */
  ghost predicate Booted<G(!new), R, C>(site: Site<G, R, C>, nd: Node<G, R, C>) {
    exists g :: site.accepts(g) && nd == Boot(site, g)
  }

  lemma BootedInv<G(!new), R, C>(site: Site<G, R, C>, nd: Node<G, R, C>)
    requires Booted(site, nd)
    ensures NodeInv(site, nd)
  {
    var g :| site.accepts(g) && nd == Boot(site, g);
  }

  /** So whatever happens after nodes were started on accepted configurations, all of them stay consistent. */
  lemma BootedRunsAreConsistent<G(!new), R, C>(site: Site<G, R, C>, s: System<G, R, C>, es: seq<Event<G>>)
    requires forall n | 0 <= n < |s.nodes| :: Booted(site, s.nodes[n])
    requires Run(site, s, es).Some?
    ensures var t := Run(site, s, es).value;
            |t.nodes| == |s.nodes| && forall n | 0 <= n < |t.nodes| :: Consistent(site, t.nodes[n])
  {
    forall n | 0 <= n < |s.nodes| ensures NodeInv(site, s.nodes[n]) {
      BootedInv(site, s.nodes[n]);
    }
    EveryRunIsConsistent(site, s, es);
  }

  // ---- Convergence ----

  /** Writers have stopped: only pollers act. */
  predicate Quiet<G>(es: seq<Event<G>>) {
    forall i | 0 <= i < |es| :: es[i].On? && !es[i].act.Admin?
  }

  predicate PollsNode<G>(es: seq<Event<G>>, n: nat) {
    exists i | 0 <= i < |es| :: es[i].On? && es[i].n == n && es[i].act.Poll?
  }

  /** The poller does not take the store's configuration for one it has already applied, or rightly so. */
  ghost predicate NotFooled<G, R, C>(nd: Node<G, R, C>, g: G) {
    nd.last.Some? && nd.last.value.gw == g ==> nd.gateway == g
  }

  /** Nor will it once it has remembered what it is applying. */
  ghost predicate WillNotBeFooled<G, R, C>(nd: Node<G, R, C>, g: G) {
    if PollerWrote(nd) then nd.tasks[POLLER].gw == g ==> nd.gateway == g
    else POLLER in nd.tasks || NotFooled(nd, g)
  }

  ghost predicate Agrees<G, R, C>(site: Site<G, R, C>, nd: Node<G, R, C>, g: G) {
    nd.gateway == g && nd.routes == site.compile(g)
  }

  /** No admin commit is being applied; a poll may be, also one that loaded an older configuration. */
  ghost predicate OnlyPolling<G, R, C>(nd: Node<G, R, C>) {
    forall id | id in nd.tasks :: id == POLLER
  }

  /** A node while only its poller acts on a store that holds `g`. */
  ghost predicate Settling<G(!new), R, C>(site: Site<G, R, C>, nd: Node<G, R, C>, g: G, polled: bool) {
    && NodeInv(site, nd) && OnlyPolling(nd) && WillNotBeFooled(nd, g)
    && (polled ==> if POLLER in nd.tasks then nd.tasks[POLLER].gw == g else Agrees(site, nd, g))
  }

  lemma SettlingStep<G(!new), R, C>(
    site: Site<G, R, C>, kv: Keyspace, nd: Node<G, R, C>, act: Act<G>, g: G, polled: bool)
    requires Settling(site, nd, g, polled) && !act.Admin? && NodeStep(site, kv, nd, act).Some?
    requires site.load(kv) == Some(g) && site.accepts(g)
    ensures Settling(site, NodeStep(site, kv, nd, act).value, g, polled || act.Poll?)
  {
    NodeStepKeeps(site, kv, nd, act);
  }

  lemma {:induction false} QuietRunSettles<G(!new), R, C>(
    site: Site<G, R, C>, s: System<G, R, C>, es: seq<Event<G>>, n: nat, g: G, polled: bool)
    requires Quiet(es) && Run(site, s, es).Some? && n < |s.nodes| && Settling(site, s.nodes[n], g, polled)
    requires site.load(s.kv) == Some(g) && site.accepts(g)
    ensures var t := Run(site, s, es).value;
            |t.nodes| == |s.nodes| && Settling(site, t.nodes[n], g, polled || PollsNode(es, n))
    decreases es
  {
    if es != [] {
      var rest := es[1..];
      var next := Step(site, s, es[0]).value;
      assert es[0].On? && forall i | 0 <= i < |rest| :: rest[i] == es[i + 1];
      var polledNow := polled || (es[0].n == n && es[0].act.Poll?);
      if es[0].n == n {
        SettlingStep(site, s.kv, s.nodes[n], es[0].act, g, polled);
      }
      QuietRunSettles(site, next, rest, n, g, polledNow);
      assert PollsNode(es, n) <==> (es[0].n == n && es[0].act.Poll?) || PollsNode(rest, n);
    }
  }

  /** Without an admin commit since its last applied poll a node is not fooled, wherever its poller stands. */
  lemma SyncedIsNotFooled<G(!new), R, C>(site: Site<G, R, C>, nd: Node<G, R, C>, g: G)
    requires NodeInv(site, nd) && OnlyPolling(nd) && !nd.adminSince
    ensures WillNotBeFooled(nd, g)
  {
    assert Synced(nd);
  }

  /** Once writers stop with a valid configuration in the store, and no node has an admin commit in progress or
      since its last applied poll: as soon as every node has polled once and its poller rests, all run that
      configuration. Polls that were under way when the writers stopped do not matter. */
  lemma PollingConverges<G(!new), R, C>(site: Site<G, R, C>, s: System<G, R, C>, es: seq<Event<G>>, g: G)
    requires Inv(site, s) && Quiet(es) && Run(site, s, es).Some?
    requires site.load(s.kv) == Some(g) && site.accepts(g)
    requires forall n | 0 <= n < |s.nodes| ::
               OnlyPolling(s.nodes[n]) && !s.nodes[n].adminSince && PollsNode(es, n)
    ensures var t := Run(site, s, es).value;
            |t.nodes| == |s.nodes| &&
            forall n | 0 <= n < |t.nodes| :: POLLER !in t.nodes[n].tasks ==> Agrees(site, t.nodes[n], g)
  {
    var t := Run(site, s, es).value;
    EveryRunIsConsistent(site, s, es);
    forall n | 0 <= n < |t.nodes| ensures POLLER !in t.nodes[n].tasks ==> Agrees(site, t.nodes[n], g) {
      SyncedIsNotFooled(site, s.nodes[n], g);
      QuietRunSettles(site, s, es, n, g, false);
    }
  }

  // ---- Exactly when one poll is enough ----

  ghost function NodeRun<G, R, C>(site: Site<G, R, C>, kv: Keyspace, nd: Node<G, R, C>, acts: seq<Act<G>>)
    : Option<Node<G, R, C>>
    decreases acts
  {
    if acts == [] then Some(nd)
    else match NodeStep(site, kv, nd, acts[0])
      case None => None
      case Some(next) => NodeRun(site, kv, next, acts[1..])
  }

  lemma {:induction false} NodeRunConcat<G, R, C>(
    site: Site<G, R, C>, kv: Keyspace, nd: Node<G, R, C>, a: seq<Act<G>>, b: seq<Act<G>>)
    requires NodeRun(site, kv, nd, a).Some?
    ensures NodeRun(site, kv, nd, a + b) == NodeRun(site, kv, NodeRun(site, kv, nd, a).value, b)
    decreases a
  {
    if a == [] {
      assert a + b == b;
    } else {
      assert (a + b)[1..] == a[1..] + b;
      NodeRunConcat(site, kv, NodeStep(site, kv, nd, a[0]).value, a[1..], b);
    }
  }

  lemma TwoActs<G, R, C>(site: Site<G, R, C>, kv: Keyspace, nd: Node<G, R, C>, a: Act<G>, b: Act<G>)
    requires NodeStep(site, kv, nd, a).Some?
    ensures NodeRun(site, kv, nd, [a, b]) == NodeStep(site, kv, NodeStep(site, kv, nd, a).value, b)
  {
    var next := NodeStep(site, kv, nd, a).value;
    assert [a, b][1..] == [b] && [b][1..] == [];
    assert NodeRun(site, kv, next, [b]) == NodeStep(site, kv, next, b);
  }

  /** The last two steps of an apply: the configuration becomes the running one. */
  ghost function Swapped<G, R, C>(site: Site<G, R, C>, nd: Node<G, R, C>, id: nat): Node<G, R, C>
    requires id in nd.tasks
  {
    nd.(gateway := nd.tasks[id].gw, routes := site.compile(nd.tasks[id].gw), lock := None, adminSince := id != POLLER,
        tasks := if id == POLLER then nd.tasks[id := nd.tasks[id].(phase := Returned)] else nd.tasks - {id})
  }

  lemma SwapRuns<G, R, C>(site: Site<G, R, C>, kv: Keyspace, nd: Node<G, R, C>, id: nat)
    requires At(nd, id, Stored) && nd.lock.None?
    ensures NodeRun(site, kv, nd, [WriteGateway(id), WriteRoutes(id)]) == Some(Swapped(site, nd, id))
  {
    TwoActs(site, kv, nd, WriteGateway(id), WriteRoutes(id));
    var mid := NodeStep(site, kv, nd, WriteGateway(id)).value;
    assert mid.tasks - {id} == nd.tasks - {id};
    assert mid.tasks[id := mid.tasks[id].(phase := Returned)] == nd.tasks[id := nd.tasks[id].(phase := Returned)];
  }

  /** The first two steps of an apply that was accepted. */
  lemma StoreRuns<G, R, C>(
    site: Site<G, R, C>, kv: Keyspace, nd: Node<G, R, C>, first: Act<G>, id: nat, g: G, order: nat)
    requires NodeStep(site, kv, nd, first) == Some(nd.(tasks := nd.tasks[id := Task(g, order, Checked)]))
    ensures NodeRun(site, kv, nd, [first, StoreConsumers(id)])
         == Some(nd.(consumers := site.consumersOf(g), tasks := nd.tasks[id := Task(g, order, Stored)]))
  {
    TwoActs(site, kv, nd, first, StoreConsumers(id));
    var checked := nd.tasks[id := Task(g, order, Checked)];
    assert checked[id := checked[id].(phase := Stored)] == nd.tasks[id := Task(g, order, Stored)];
  }

  /** The acts of one complete poll that finds something new. */
  function PollActs<G>(order: nat): seq<Act<G>> {
    [Poll(order), StoreConsumers(POLLER)] + [WriteGateway(POLLER), WriteRoutes(POLLER)] + [Remember]
  }

  ghost function Polled<G, R, C>(site: Site<G, R, C>, g: G, order: nat): Node<G, R, C> {
    Node(g, site.compile(g), site.consumersOf(g), None, Some(Fingerprint(g, order)), map[], false)
  }

  /** A poll that finds a new fingerprint can always be completed, and brings the whole node to it. */
  lemma PollCompletes<G, R, C>(site: Site<G, R, C>, kv: Keyspace, nd: Node<G, R, C>, order: nat, g: G)
    requires nd.tasks == map[] && nd.lock.None? && site.load(kv) == Some(g) && site.accepts(g)
    requires nd.last != Some(Fingerprint(g, order))
    ensures NodeRun(site, kv, nd, PollActs(order)) == Some(Polled(site, g, order))
  {
    var a: seq<Act<G>>, b: seq<Act<G>>, c: seq<Act<G>> :=
      [Poll(order), StoreConsumers(POLLER)], [WriteGateway(POLLER), WriteRoutes(POLLER)], [Remember];
    StoreRuns(site, kv, nd, Poll(order), POLLER, g, order);
    var stored := nd.(consumers := site.consumersOf(g), tasks := nd.tasks[POLLER := Task(g, order, Stored)]);
    SwapRuns(site, kv, stored, POLLER);
    NodeRunConcat(site, kv, nd, a, b);
    var swapped := Swapped(site, stored, POLLER);
    NodeRunConcat(site, kv, nd, a + b, c);
    assert NodeRun(site, kv, swapped, c) == NodeStep(site, kv, swapped, Remember) by {
      assert c[1..] == [];
    }
    assert swapped.tasks - {POLLER} == map[];
  }

  /** A node after one whole poll at rest, whatever order the fingerprint is written in. */
  ghost function AfterPoll<G, R, C>(site: Site<G, R, C>, kv: Keyspace, nd: Node<G, R, C>, order: nat, g: G)
    : Option<Node<G, R, C>>
  {
    NodeRun(site, kv, nd, if nd.last == Some(Fingerprint(g, order)) then [Poll(order)] else PollActs(order))
  }

  lemma SkippedPoll<G, R, C>(site: Site<G, R, C>, kv: Keyspace, nd: Node<G, R, C>, order: nat, g: G)
    requires nd.tasks == map[] && site.load(kv) == Some(g) && nd.last == Some(Fingerprint(g, order))
    ensures AfterPoll(site, kv, nd, order, g) == Some(nd)
  {
    var acts: seq<Act<G>> := [Poll(order)];
    assert acts[1..] == [] && NodeRun(site, kv, nd, acts) == Some(nd);
  }

  /** Exact: one poll brings a resting node to the store's configuration, in every iteration order, iff the node
      does not remember that configuration while running another. */
  lemma OnePollAgreesIff<G(!new), R, C>(site: Site<G, R, C>, kv: Keyspace, nd: Node<G, R, C>, g: G)
    requires NodeInv(site, nd) && nd.tasks == map[] && site.load(kv) == Some(g) && site.accepts(g)
    ensures NotFooled(nd, g) <==> forall order: nat ::
              AfterPoll(site, kv, nd, order, g).Some? && Agrees(site, AfterPoll(site, kv, nd, order, g).value, g)
  {
    forall order: nat
      ensures AfterPoll(site, kv, nd, order, g)
           == Some(if nd.last == Some(Fingerprint(g, order)) then nd else Polled(site, g, order))
    {
      if nd.last == Some(Fingerprint(g, order)) {
        SkippedPoll(site, kv, nd, order, g);
      } else {
        PollCompletes(site, kv, nd, order, g);
      }
    }
    if !NotFooled(nd, g) {
      assert AfterPoll(site, kv, nd, nd.last.value.order, g) == Some(nd);
    }
  }

  // ---- What the code does not promise ----

  /** A whole admin commit on a resting node. */
  function AdminActs<G>(id: nat, g: G): seq<Act<G>> {
    [Admin(id, g), StoreConsumers(id)] + [WriteGateway(id), WriteRoutes(id)]
  }

  ghost function Administered<G, R, C>(site: Site<G, R, C>, nd: Node<G, R, C>, g: G): Node<G, R, C> {
    nd.(gateway := g, routes := site.compile(g), consumers := site.consumersOf(g), adminSince := true)
  }

  lemma AdminCompletes<G, R, C>(site: Site<G, R, C>, kv: Keyspace, nd: Node<G, R, C>, id: nat, g: G)
    requires nd.tasks == map[] && nd.lock.None? && site.accepts(g) && id != POLLER
    ensures NodeRun(site, kv, nd, AdminActs(id, g)) == Some(Administered(site, nd, g))
  {
    StoreRuns(site, kv, nd, Admin(id, g), id, g, 0);
    var stored := nd.(consumers := site.consumersOf(g), tasks := nd.tasks[id := Task(g, 0, Stored)]);
    SwapRuns(site, kv, stored, id);
    NodeRunConcat(site, kv, nd, [Admin(id, g), StoreConsumers(id)], [WriteGateway(id), WriteRoutes(id)]);
    assert stored.tasks - {id} == map[];
  }

  function Events<G>(n: nat, acts: seq<Act<G>>): (es: seq<Event<G>>)
    ensures |es| == |acts|
  {
    seq(|acts|, i requires 0 <= i < |acts| => On(n, acts[i]))
  }

  lemma {:induction false} RunOnNode<G, R, C>(site: Site<G, R, C>, s: System<G, R, C>, n: nat, acts: seq<Act<G>>)
    requires n < |s.nodes| && NodeRun(site, s.kv, s.nodes[n], acts).Some?
    ensures Run(site, s, Events(n, acts))
         == Some(s.(nodes := s.nodes[n := NodeRun(site, s.kv, s.nodes[n], acts).value]))
    decreases acts
  {
    if acts == [] {
      assert s.nodes[n := s.nodes[n]] == s.nodes;
    } else {
      var next := Step(site, s, On(n, acts[0])).value;
      RunOnNode(site, next, n, acts[1..]);
      var last := NodeRun(site, s.kv, s.nodes[n], acts).value;
      assert next.nodes[n := last] == s.nodes[n := last];
      assert Events(n, acts)[1..] == Events(n, acts[1..]);
      assert Events(n, acts)[0] == On(n, acts[0]);
    }
  }

  /** Every quiet run in which the node polls and its poller comes to rest brings the node to `g`. */
  ghost predicate Converges<G(!new), R, C>(site: Site<G, R, C>, s: System<G, R, C>, n: nat, g: G) {
    forall es | Quiet(es) && PollsNode(es, n) && Run(site, s, es).Some? ::
      var t := Run(site, s, es).value;
      n < |t.nodes| && (POLLER !in t.nodes[n].tasks ==> Agrees(site, t.nodes[n], g))
  }

  /** What a fooled poller has left to do, and a poll that finds the same text. While it holds the lock the gateway
      is its own configuration, so it can only be fooled later. */
  ghost function FinishAndPoll<G, R, C>(nd: Node<G, R, C>): seq<Act<G>> {
    if At(nd, POLLER, Returned) then [Remember, Poll(nd.tasks[POLLER].order)]
    else if nd.last.Some? then [Poll(nd.last.value.order)] else []
  }

  lemma OneAct<G, R, C>(site: Site<G, R, C>, kv: Keyspace, nd: Node<G, R, C>, a: Act<G>)
    ensures NodeRun(site, kv, nd, [a]) == NodeStep(site, kv, nd, a)
  {
    assert [a][1..] == [];
  }

  lemma FooledStaysFooled<G(!new), R, C>(site: Site<G, R, C>, kv: Keyspace, nd: Node<G, R, C>, g: G)
    requires NodeInv(site, nd) && OnlyPolling(nd) && !WillNotBeFooled(nd, g) && site.load(kv) == Some(g)
    ensures var t := NodeRun(site, kv, nd, FinishAndPoll(nd));
            t.Some? && t.value.gateway != g && POLLER !in t.value.tasks
  {
    if At(nd, POLLER, Returned) {
      TwoActs(site, kv, nd, Remember, Poll(nd.tasks[POLLER].order));
    } else {
      OneAct(site, kv, nd, Poll(nd.last.value.order));
    }
  }

  /** Exact: with no admin commit in progress a node converges, in every quiet run, iff it does not remember the
      store's configuration, now or when its poller is done, while running another. */
  lemma ConvergesIff<G(!new), R, C>(site: Site<G, R, C>, s: System<G, R, C>, n: nat, g: G)
    requires Inv(site, s) && n < |s.nodes| && OnlyPolling(s.nodes[n])
    requires site.load(s.kv) == Some(g) && site.accepts(g)
    ensures Converges(site, s, n, g) <==> WillNotBeFooled(s.nodes[n], g)
  {
    var nd := s.nodes[n];
    if WillNotBeFooled(nd, g) {
      forall es | Quiet(es) && PollsNode(es, n) && Run(site, s, es).Some?
        ensures n < |Run(site, s, es).value.nodes|
        ensures var t := Run(site, s, es).value.nodes[n]; POLLER !in t.tasks ==> Agrees(site, t, g)
      {
        QuietRunSettles(site, s, es, n, g, false);
      }
    } else {
      var acts := FinishAndPoll(nd);
      FooledStaysFooled(site, s.kv, nd, g);
      RunOnNode(site, s, n, acts);
      var es := Events(n, acts);
      assert es[|es| - 1] == On(n, acts[|acts| - 1]) && acts[|acts| - 1].Poll?;
      assert Quiet(es) && PollsNode(es, n);
    }
  }

  lemma {:induction false} RunConcat<G, R, C>(
    site: Site<G, R, C>, s: System<G, R, C>, a: seq<Event<G>>, b: seq<Event<G>>)
    requires Run(site, s, a).Some?
    ensures Run(site, s, a + b) == Run(site, Run(site, s, a).value, b)
    decreases a
  {
    if a == [] {
      assert a + b == b;
    } else {
      assert (a + b)[1..] == a[1..] + b;
      RunConcat(site, Step(site, s, a[0]).value, a[1..], b);
    }
  }

  lemma RunPut<G, R, C>(site: Site<G, R, C>, s: System<G, R, C>, k: Str, v: Str)
    ensures Run(site, s, [Put(k, v)]) == Some(s.(kv := s.kv[k := v]))
  {
    var es: seq<Event<G>> := [Put(k, v)];
    assert es[1..] == [];
  }

  /** A poll, a commit on the node itself, and another writer's put that restores the old value before the
      next poll. */
  function RevertRun<G>(k: Str, before: Str, v: Str, order: nat, id: nat, g: G): seq<Event<G>> {
    Events(0, PollActs(order)) + [Put(k, v)] + Events(0, AdminActs(id, g)) + [Put(k, before)]
  }

  lemma RunPolled<G, R, C>(site: Site<G, R, C>, boot: G, kv: Keyspace, order: nat, g: G)
    requires site.load(kv) == Some(g) && site.accepts(g)
    ensures Run(site, System(kv, [Boot(site, boot)]), Events(0, PollActs(order)))
         == Some(System(kv, [Polled(site, g, order)]))
  {
    PollCompletes(site, kv, Boot(site, boot), order, g);
    RunOnNode(site, System(kv, [Boot(site, boot)]), 0, PollActs(order));
    assert [Boot(site, boot)][0 := Polled(site, g, order)] == [Polled(site, g, order)];
  }

  lemma RunAdmin<G, R, C>(site: Site<G, R, C>, nd: Node<G, R, C>, kv: Keyspace, id: nat, g: G)
    requires nd.tasks == map[] && nd.lock.None? && site.accepts(g) && id != POLLER
    ensures Run(site, System(kv, [nd]), Events(0, AdminActs(id, g))) == Some(System(kv, [Administered(site, nd, g)]))
  {
    AdminCompletes(site, kv, nd, id, g);
    RunOnNode(site, System(kv, [nd]), 0, AdminActs(id, g));
    assert [nd][0 := Administered(site, nd, g)] == [Administered(site, nd, g)];
  }

  /** The poller's memory is not updated by local commits: from a fresh node this run ends with the store as it
      was, the node on the reverted configuration, and every further poll of that store a no-op. */
  lemma RevertedCommitSticks<G, R, C>(
    site: Site<G, R, C>, boot: G, kv: Keyspace, k: Str, v: Str, order: nat, id: nat, former: G, latter: G)
    requires site.accepts(former) && site.accepts(latter) && former != latter && id != POLLER
    requires k in kv && site.load(kv) == Some(former) && site.load(kv[k := v]) == Some(latter)
    ensures var nd := Administered(site, Polled(site, former, order), latter);
            && Run(site, System(kv, [Boot(site, boot)]), RevertRun(k, kv[k], v, order, id, latter))
               == Some(System(kv, [nd]))
            && nd.gateway == latter != former && nd.tasks == map[]
            && NodeStep(site, kv, nd, Poll(order)) == Some(nd)
  {
    var s := System(kv, [Boot(site, boot)]);
    var a, b, c, d := Events(0, PollActs(order)), [Put(k, v)], Events(0, AdminActs(id, latter)), [Put(k, kv[k])];
    var nd1 := Polled(site, former, order);
    var nd2 := Administered(site, nd1, latter);
    RunPolled(site, boot, kv, order, former);
    RunPut(site, System(kv, [nd1]), k, v);
    RunConcat(site, s, a, b);
    RunAdmin(site, nd1, kv[k := v], id, latter);
    RunConcat(site, s, a + b, c);
    RunPut(site, System(kv[k := v], [nd2]), k, kv[k]);
    RunConcat(site, s, a + b + c, d);
    assert kv[k := v][k := kv[k]] == kv;
  }

  /** The node that commits: it remembers nothing of its own commit, so it will come to run what the store holds
      unless its poller already remembers that, and then only if that is the candidate itself. */
  lemma CommitterWillNotBeFooledIff<G(!new), R, C>(
    site: Site<G, R, C>, kv: Keyspace, nd: Node<G, R, C>, id: nat, cand: G, g: G)
    requires NodeInv(site, nd) && nd.tasks == map[] && site.accepts(cand) && id != POLLER
    ensures NodeRun(site, kv, nd, AdminActs(id, cand)) == Some(Administered(site, nd, cand))
    ensures NodeInv(site, Administered(site, nd, cand))
    ensures WillNotBeFooled(Administered(site, nd, cand), g)
       <==> (nd.last.Some? && nd.last.value.gw == g ==> cand == g)
  {
    AdminCompletes(site, kv, nd, id, cand);
  }

  /** Exact: after its own commit a resting node converges iff that holds. */
  lemma CommitterConvergesIff<G(!new), R, C>(site: Site<G, R, C>, s: System<G, R, C>, n: nat, id: nat, cand: G, g: G)
    requires Inv(site, s) && n < |s.nodes| && s.nodes[n].tasks == map[] && site.accepts(cand) && id != POLLER
    requires site.load(s.kv) == Some(g) && site.accepts(g)
    ensures var nd := Administered(site, s.nodes[n], cand);
            && NodeRun(site, s.kv, s.nodes[n], AdminActs(id, cand)) == Some(nd)
            && (Converges(site, s.(nodes := s.nodes[n := nd]), n, g)
                <==> !(s.nodes[n].last.Some? && s.nodes[n].last.value.gw == g) || cand == g)
  {
    CommitterWillNotBeFooledIff(site, s.kv, s.nodes[n], id, cand, g);
    ConvergesIff(site, s.(nodes := s.nodes[n := Administered(site, s.nodes[n], cand)]), n, g);
  }

  lemma RunDelete<G, R, C>(site: Site<G, R, C>, s: System<G, R, C>, k: Str)
    ensures Run(site, s, [Delete(k)]) == Some(s.(kv := s.kv - {k}))
  {
    var es: seq<Event<G>> := [Delete(k)];
    assert es[1..] == [];
  }

  /** Two commits on one node between two of its polls, that take a key out of the store and put it back. */
  function ReAddRun<G>(k: Str, v: Str, order: nat, id: nat, without: G, latter: G): seq<Event<G>> {
    Events(0, PollActs(order)) + [Delete(k)] + Events(0, AdminActs(id, without)) + [Put(k, v)]
    + Events(0, AdminActs(id, latter))
  }

  /** The store is then as the poller remembers it, so the node keeps its last candidate for good, even if that
      is not what the store loads as. */
  lemma ReAddedCommitSticks<G, R, C>(
    site: Site<G, R, C>, boot: G, kv: Keyspace, k: Str, order: nat, id: nat, former: G, without: G, latter: G)
    requires site.accepts(former) && site.accepts(without) && site.accepts(latter) && id != POLLER
    requires k in kv && site.load(kv) == Some(former)
    ensures var nd := Administered(site, Polled(site, former, order), latter);
            && Run(site, System(kv, [Boot(site, boot)]), ReAddRun(k, kv[k], order, id, without, latter))
               == Some(System(kv, [nd]))
            && nd.gateway == latter && nd.tasks == map[]
            && NodeStep(site, kv, nd, Poll(order)) == Some(nd)
  {
    var s := System(kv, [Boot(site, boot)]);
    var a, b, c := Events(0, PollActs(order)), [Delete(k)], Events(0, AdminActs(id, without));
    var d, e := [Put(k, kv[k])], Events(0, AdminActs(id, latter));
    var nd1 := Polled(site, former, order);
    var nd2 := Administered(site, nd1, without);
    RunPolled(site, boot, kv, order, former);
    RunDelete(site, System(kv, [nd1]), k);
    RunConcat(site, s, a, b);
    RunAdmin(site, nd1, kv - {k}, id, without);
    RunConcat(site, s, a + b, c);
    RunPut(site, System(kv - {k}, [nd2]), k, kv[k]);
    RunConcat(site, s, a + b + c, d);
    assert (kv - {k})[k := kv[k]] == kv;
    RunAdmin(site, nd2, kv, id, latter);
    RunConcat(site, s, a + b + c + d, e);
  }

  // ---- Consumers and gateway ----

  /** The configuration of the last apply that stored its consumers on node `n` in a run; `before` without one. */
  ghost function LastStored<G, R, C>(site: Site<G, R, C>, s: System<G, R, C>, es: seq<Event<G>>, n: nat, before: G): G
    requires n < |s.nodes|
    decreases es
  {
    if es == [] || Step(site, s, es[0]).None? then before
    else
      var now :=
        if es[0].On? && es[0].n == n && es[0].act.StoreConsumers? then s.nodes[n].tasks[es[0].act.id].gw
        else before;
      LastStored(site, Step(site, s, es[0]).value, es[1..], n, now)
  }

  /** The configuration of the last apply that wrote the gateway of node `n` in a run; `before` without one. */
  ghost function LastWritten<G, R, C>(site: Site<G, R, C>, s: System<G, R, C>, es: seq<Event<G>>, n: nat, before: G): G
    requires n < |s.nodes|
    decreases es
  {
    if es == [] || Step(site, s, es[0]).None? then before
    else
      var now :=
        if es[0].On? && es[0].n == n && es[0].act.WriteGateway? then s.nodes[n].tasks[es[0].act.id].gw
        else before;
      LastWritten(site, Step(site, s, es[0]).value, es[1..], n, now)
  }

  ghost predicate RunningParts<G, R, C>(site: Site<G, R, C>, nd: Node<G, R, C>, stored: G, written: G) {
    nd.consumers == site.consumersOf(stored) && nd.gateway == written
  }

  /** At every point of every run a node's consumers are those of the last apply to store them, and its gateway
      is that of the last apply to write it; both passed validation. */
  lemma {:induction false} PartsOfRun<G(!new), R, C>(
    site: Site<G, R, C>, s: System<G, R, C>, es: seq<Event<G>>, n: nat, stored: G, written: G)
    requires Inv(site, s) && n < |s.nodes| && Run(site, s, es).Some?
    requires RunningParts(site, s.nodes[n], stored, written) && site.accepts(stored) && site.accepts(written)
    ensures var t := Run(site, s, es).value;
            var c, w := LastStored(site, s, es, n, stored), LastWritten(site, s, es, n, written);
            |t.nodes| == |s.nodes| && RunningParts(site, t.nodes[n], c, w) && site.accepts(c) && site.accepts(w)
    decreases es
  {
    if es != [] {
      var e, next := es[0], Step(site, s, es[0]).value;
      if e.On? {
        NodeStepKeeps(site, s.kv, s.nodes[e.n], e.act);
      }
      var c := if e.On? && e.n == n && e.act.StoreConsumers? then s.nodes[n].tasks[e.act.id].gw else stored;
      var w := if e.On? && e.n == n && e.act.WriteGateway? then s.nodes[n].tasks[e.act.id].gw else written;
      PartsOfRun(site, next, es[1..], n, c, w);
    }
  }

  /** A node that serves its own gateway's consumers. */
  ghost predicate Matched<G, R, C>(site: Site<G, R, C>, nd: Node<G, R, C>) {
    nd.consumers == site.consumersOf(nd.gateway)
  }

  /** Exact, over every run from a matched node: it ends matched iff the last apply to store its consumers and the
      last apply to write the gateway have the same consumers. */
  lemma MatchedIff<G(!new), R, C>(site: Site<G, R, C>, s: System<G, R, C>, es: seq<Event<G>>, n: nat)
    requires Inv(site, s) && n < |s.nodes| && Run(site, s, es).Some? && Matched(site, s.nodes[n])
    ensures var t, g := Run(site, s, es).value, s.nodes[n].gateway;
            && |t.nodes| == |s.nodes|
            && (Matched(site, t.nodes[n]) <==>
                site.consumersOf(LastStored(site, s, es, n, g)) == site.consumersOf(LastWritten(site, s, es, n, g)))
  {
    PartsOfRun(site, s, es, n, s.nodes[n].gateway, s.nodes[n].gateway);
  }

  /** At most one apply at a time. */
  ghost predicate Lone<G, R, C>(nd: Node<G, R, C>) {
    forall i, j | i in nd.tasks && j in nd.tasks :: i == j
  }

  /** ... at every point of a run. */
  ghost predicate LoneThroughout<G, R, C>(site: Site<G, R, C>, s: System<G, R, C>, es: seq<Event<G>>, n: nat)
    requires n < |s.nodes|
    decreases es
  {
    && Lone(s.nodes[n])
    && (es != [] && Step(site, s, es[0]).Some? ==> LoneThroughout(site, Step(site, s, es[0]).value, es[1..], n))
  }

  /** Where a lone apply stands, its consumers are in place or still to come with the gateway. */
  ghost predicate InStep<G, R, C>(site: Site<G, R, C>, nd: Node<G, R, C>) {
    && (forall id | At(nd, id, Stored) :: nd.consumers == site.consumersOf(nd.tasks[id].gw))
    && ((forall id :: !At(nd, id, Stored)) ==> Matched(site, nd))
  }

  lemma LoneStep<G(!new), R, C>(site: Site<G, R, C>, kv: Keyspace, nd: Node<G, R, C>, act: Act<G>)
    requires NodeInv(site, nd) && Lone(nd) && InStep(site, nd) && NodeStep(site, kv, nd, act).Some?
    requires Lone(NodeStep(site, kv, nd, act).value)
    ensures InStep(site, NodeStep(site, kv, nd, act).value)
  {
    var next := NodeStep(site, kv, nd, act).value;
    if act.StoreConsumers? {
      assert At(next, act.id, Stored);
    } else if act.WriteGateway? {
      assert At(nd, act.id, Stored);
    } else {
      assert next.consumers == nd.consumers && next.gateway == nd.gateway;
      assert forall id :: At(nd, id, Stored) <==> At(next, id, Stored);
    }
  }

  lemma {:induction false} LoneRunInStep<G(!new), R, C>(
    site: Site<G, R, C>, s: System<G, R, C>, es: seq<Event<G>>, n: nat)
    requires n < |s.nodes| && Run(site, s, es).Some? && LoneThroughout(site, s, es, n)
    requires Inv(site, s) && InStep(site, s.nodes[n])
    ensures var t := Run(site, s, es).value; |t.nodes| == |s.nodes| && InStep(site, t.nodes[n])
    decreases es
  {
    if es != [] {
      var e, next := es[0], Step(site, s, es[0]).value;
      if e.On? {
        NodeStepKeeps(site, s.kv, s.nodes[e.n], e.act);
      }
      if e.On? && e.n == n {
        LoneStep(site, s.kv, s.nodes[n], e.act);
      }
      LoneRunInStep(site, next, es[1..], n);
    }
  }

  /** When no two applies overlap on a node, polls and admin commits alike, it is matched whenever none is in
      progress. */
  lemma LoneAppliesMatch<G(!new), R, C>(site: Site<G, R, C>, s: System<G, R, C>, es: seq<Event<G>>, n: nat)
    requires Inv(site, s) && n < |s.nodes| && Run(site, s, es).Some? && LoneThroughout(site, s, es, n)
    requires s.nodes[n].tasks == map[] && Matched(site, s.nodes[n])
    ensures var t := Run(site, s, es).value;
            |t.nodes| == |s.nodes| && (t.nodes[n].tasks == map[] ==> Matched(site, t.nodes[n]))
  {
    LoneRunInStep(site, s, es, n);
  }

  /** Two overlapping applies: the second to store its consumers is the first to take the gateway lock. */
  function OverlapActs<G>(a: G, b: G): seq<Act<G>> {
    [Admin(1, a), StoreConsumers(1)] + [Admin(2, b), StoreConsumers(2)]
    + [WriteGateway(2), WriteRoutes(2)] + [WriteGateway(1), WriteRoutes(1)]
  }

  /** The swap is not atomic in the consumer store: a resting node can run one configuration's routes with
      another's consumers. */
  lemma ConsumersCanMismatch<G, R, C>(site: Site<G, R, C>, kv: Keyspace, nd: Node<G, R, C>, a: G, b: G)
    requires nd.tasks == map[] && nd.lock.None? && site.accepts(a) && site.accepts(b)
    ensures var t := NodeRun(site, kv, nd, OverlapActs(a, b));
            t.Some? && t.value.tasks == map[] && t.value.gateway == a && t.value.consumers == site.consumersOf(b)
  {
    var p: seq<Act<G>>, q: seq<Act<G>>, r: seq<Act<G>>, u: seq<Act<G>> :=
      [Admin(1, a), StoreConsumers(1)], [Admin(2, b), StoreConsumers(2)],
      [WriteGateway(2), WriteRoutes(2)], [WriteGateway(1), WriteRoutes(1)];
    StoreRuns(site, kv, nd, Admin(1, a), 1, a, 0);
    var n1 := nd.(consumers := site.consumersOf(a), tasks := nd.tasks[1 := Task(a, 0, Stored)]);
    StoreRuns(site, kv, n1, Admin(2, b), 2, b, 0);
    var n2 := n1.(consumers := site.consumersOf(b), tasks := n1.tasks[2 := Task(b, 0, Stored)]);
    NodeRunConcat(site, kv, nd, p, q);
    SwapRuns(site, kv, n2, 2);
    NodeRunConcat(site, kv, nd, p + q, r);
    var n3 := Swapped(site, n2, 2);
    SwapRuns(site, kv, n3, 1);
    NodeRunConcat(site, kv, nd, p + q + r, u);
    assert n3.tasks - {1} == map[];
  }

  /** A booted node alone. */
  ghost function Single<G, R, C>(site: Site<G, R, C>, boot: G): System<G, R, C> {
    System(map[], [Boot(site, boot)])
  }

  /** Every run of a booted node that comes to rest leaves it matched. */
  ghost predicate AlwaysMatches<G(!new), R, C>(site: Site<G, R, C>, boot: G) {
    forall es | Run(site, Single(site, boot), es).Some? ::
      var t := Run(site, Single(site, boot), es).value;
      |t.nodes| == 1 && (t.nodes[0].tasks == map[] ==> Matched(site, t.nodes[0]))
  }

  /** Exact: overlapping applies can never mix consumers and gateway iff all configurations that pass validation
      have the same consumers. */
  lemma AlwaysMatchesIff<G(!new), R, C>(site: Site<G, R, C>, boot: G)
    requires site.accepts(boot)
    ensures AlwaysMatches(site, boot) <==>
            forall a, b | site.accepts(a) && site.accepts(b) :: site.consumersOf(a) == site.consumersOf(b)
  {
    var s := Single(site, boot);
    BootedInv(site, Boot(site, boot));
    if AlwaysMatches(site, boot) {
      forall a, b | site.accepts(a) && site.accepts(b) ensures site.consumersOf(a) == site.consumersOf(b) {
        var acts := OverlapActs(a, b);
        ConsumersCanMismatch(site, s.kv, s.nodes[0], a, b);
        RunOnNode(site, s, 0, acts);
        assert Run(site, s, Events(0, acts)).Some?;
      }
    } else {
      var es :| Run(site, s, es).Some?
             && !(var t := Run(site, s, es).value;
                  |t.nodes| == 1 && (t.nodes[0].tasks == map[] ==> Matched(site, t.nodes[0])));
      PartsOfRun(site, s, es, 0, boot, boot);
      var c, w := LastStored(site, s, es, 0, boot), LastWritten(site, s, es, 0, boot);
      assert site.accepts(c) && site.accepts(w) && site.consumersOf(c) != site.consumersOf(w);
    }
  }
}
