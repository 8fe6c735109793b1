/** The cluster steps with the gateway's own load, validation and compilation: what one commit brings about. */
module Fleet {
  import Consumers
  import opened Wrappers
  import opened Bytes
  import opened GatewayState
  import opened Etcd
  import opened Cluster
  import Utf8

  /** A node of the fleet: the gateway, its route table and its consumer store. */
  ghost function GatewaySite<P, W, S>(prefix: Str, codec: Codec, services: Services<P, W, S>)
    : Site<GatewayConfig, Result<seq<Bound<P>>, ApplyError>, Result<S, string>>
  {
    Site(
      kv => match Loaded(kv, prefix, codec) case Ok(g) => Some(g) case Err(_) => None,
      (g: GatewayConfig) => Rejection(g, services).None?,
      (g: GatewayConfig) => CompileRoutes(g, services.plugins),
      (g: GatewayConfig) => services.buildStore(g.consumers))
  }

  /** The keyspace that a complete commit of a candidate leaves. */
  ghost function Committed(kv: Keyspace, prefix: Str, gw: GatewayConfig, codec: Codec): Keyspace {
    Reconciled(kv, Dir(prefix), Entries(prefix, gw, codec))
  }

  /** The consumer store's constructor accepts what `Consumers.FromConfig` accepts. */
  ghost predicate BuildsConsumers<P, W, S>(services: Services<P, W, S>) {
    forall cs :: services.buildStore(cs).Ok? <==> Consumers.Acceptable(cs)
  }

  /** Validation does not depend on the order of the lists. */
  lemma AcceptedInAnyOrder<P, W, S>(a: GatewayConfig, b: GatewayConfig, services: Services<P, W, S>)
    requires SameResources(a, b) && Rejection(a, services).None? && BuildsConsumers(services)
    ensures Rejection(b, services).None?
  {
    AcceptedIff(a, services);
    AcceptedIff(b, services);
    Consumers.AcceptableInAnyOrder(a.consumers, b.consumers);
    forall p | p in b.policies ensures p in a.policies {
      assert p in multiset(a.policies);
    }
    forall p | p in a.policies ensures p in b.policies {
      assert p in multiset(b.policies);
    }
    forall r | r in b.routes ensures LastPolicy(b.policies, r.policy).Some? {
      assert r in multiset(a.routes);
      LastPolicyListed(a.policies, r.policy);
      LastPolicyListed(b.policies, r.policy);
    }
  }

  type FleetNode<!P, !S> = Node<GatewayConfig, Result<seq<Bound<P>>, ApplyError>, Result<S, string>>

  /** What a commit of an accepted candidate with distinct names leaves to be loaded: an accepted configuration with
      the same resources. */
  ghost predicate LeavesShared<P, W, S>(
    before: Keyspace, prefix: Str, gw: GatewayConfig, codec: Codec, services: Services<P, W, S>, shared: GatewayConfig)
  {
    var site, kv := GatewaySite(prefix, codec, services), Committed(before, prefix, gw, codec);
    site.load(kv) == Some(shared) && site.accepts(shared) && SameResources(shared, gw)
  }

  lemma CommitLeavesShared<P, W, S>(
    before: Keyspace, prefix: Str, gw: GatewayConfig, codec: Codec, services: Services<P, W, S>)
    returns (shared: GatewayConfig)
    requires Utf8.IsUtf8(prefix) && codec.ReadsBack() && AllNamesDistinct(gw, codec)
    requires Rejection(gw, services).None? && BuildsConsumers(services)
    ensures LeavesShared(before, prefix, gw, codec, services, shared)
    ensures shared == gw <==> InNameOrder(gw, codec)
  {
    CommitKeepsResourcesIff(before, prefix, gw, codec);
    CommitLoadsItselfIff(before, prefix, gw, codec);
    shared := Loaded(Committed(before, prefix, gw, codec), prefix, codec).value;
    AcceptedInAnyOrder(gw, shared, services);
  }

  /** End to end and exact: after a commit, and with no other one in progress, every quiet run in which every node
      polls brings all of them to the same configuration, the committed resources sorted by name, iff no node's poller
      remembers that configuration while the node runs another. */
  lemma CommitReachesEveryNodeIff<P, W, S>(
    before: Keyspace, prefix: Str, gw: GatewayConfig, codec: Codec, services: Services<P, W, S>,
    nodes: seq<FleetNode<P, S>>) returns (shared: GatewayConfig)
    requires Utf8.IsUtf8(prefix) && codec.ReadsBack() && AllNamesDistinct(gw, codec)
    requires Rejection(gw, services).None? && BuildsConsumers(services)
    requires var site := GatewaySite(prefix, codec, services);
             Inv(site, System(Committed(before, prefix, gw, codec), nodes))
    requires forall n | 0 <= n < |nodes| :: OnlyPolling(nodes[n])
    ensures LeavesShared(before, prefix, gw, codec, services, shared)
    ensures var site, s := GatewaySite(prefix, codec, services), System(Committed(before, prefix, gw, codec), nodes);
            (forall n | 0 <= n < |nodes| :: Converges(site, s, n, shared)) <==>
              (forall n | 0 <= n < |nodes| :: WillNotBeFooled(nodes[n], shared))
  {
    shared := CommitLeavesShared(before, prefix, gw, codec, services);
    var site, s := GatewaySite(prefix, codec, services), System(Committed(before, prefix, gw, codec), nodes);
    forall n | 0 <= n < |nodes| ensures Converges(site, s, n, shared) <==> WillNotBeFooled(nodes[n], shared) {
      ConvergesIff(site, s, n, shared);
    }
  }

  /** Exact, for the node that made the commit: it converges like the others iff its poller does not yet remember
      what the store now holds, or the candidate's lists were in name order. */
  lemma CommitterConvergesIff<P, W, S>(
    before: Keyspace, prefix: Str, gw: GatewayConfig, codec: Codec, services: Services<P, W, S>,
    nodes: seq<FleetNode<P, S>>, n: nat, id: nat) returns (shared: GatewayConfig)
    requires Utf8.IsUtf8(prefix) && codec.ReadsBack() && AllNamesDistinct(gw, codec)
    requires Rejection(gw, services).None? && BuildsConsumers(services)
    requires n < |nodes| && nodes[n].tasks == map[] && id != POLLER
    requires var site := GatewaySite(prefix, codec, services);
             Inv(site, System(Committed(before, prefix, gw, codec), nodes))
    ensures LeavesShared(before, prefix, gw, codec, services, shared)
    ensures var site, kv := GatewaySite(prefix, codec, services), Committed(before, prefix, gw, codec);
            var nd := Administered(site, nodes[n], gw);
            && NodeRun(site, kv, nodes[n], AdminActs(id, gw)) == Some(nd)
            && (Converges(site, System(kv, nodes[n := nd]), n, shared)
                <==> !(nodes[n].last.Some? && nodes[n].last.value.gw == shared) || InNameOrder(gw, codec))
  {
    shared := CommitLeavesShared(before, prefix, gw, codec, services);
    var site, s := GatewaySite(prefix, codec, services), System(Committed(before, prefix, gw, codec), nodes);
    Cluster.CommitterConvergesIff(site, s, n, id, gw, shared);
  }

  /** Such a node: it polls, then commits a candidate without some key and the former one again before its next
      poll. If that is not in name order the node stays on it, and every further poll is a no-op, while the nodes
      that only poll run the sorted lists. */
  lemma ReAddedStaysUnsorted<P, W, S>(
    before: Keyspace, prefix: Str, gw: GatewayConfig, codec: Codec, services: Services<P, W, S>, boot: GatewayConfig,
    k: Str, order: nat, id: nat, without: GatewayConfig) returns (shared: GatewayConfig)
    requires Utf8.IsUtf8(prefix) && codec.ReadsBack() && AllNamesDistinct(gw, codec) && !InNameOrder(gw, codec)
    requires Rejection(gw, services).None? && Rejection(without, services).None? && BuildsConsumers(services)
    requires k in Committed(before, prefix, gw, codec) && id != POLLER
    ensures LeavesShared(before, prefix, gw, codec, services, shared) && shared != gw
    ensures var site, kv := GatewaySite(prefix, codec, services), Committed(before, prefix, gw, codec);
            var nd := Administered(site, Polled(site, shared, order), gw);
            && Run(site, System(kv, [Boot(site, boot)]), ReAddRun(k, kv[k], order, id, without, gw))
               == Some(System(kv, [nd]))
            && nd.gateway == gw && nd.tasks == map[] && NodeStep(site, kv, nd, Poll(order)) == Some(nd)
  {
    shared := CommitLeavesShared(before, prefix, gw, codec, services);
    var site, kv := GatewaySite(prefix, codec, services), Committed(before, prefix, gw, codec);
    ReAddedCommitSticks(site, boot, kv, k, order, id, shared, without, gw);
  }
}
