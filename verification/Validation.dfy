/** Structural validation of policy graphs: every violation is reported, in order. */
module Validation {
  import opened Wrappers
  import opened Policy

  datatype Violation =
    | NoListener
    | NoClient
    | UnknownSource(node: string)
    | UnknownTarget(node: string)
    | MultipleIncoming(node: string, target: string)
    | Orphan(id: string)
    | UnknownHandler(handler: string)

  function NodeIds(nodes: seq<NodeConfig>): set<string> {
    set n | n in nodes :: n.id
  }

  /** Inputs that accept several edges: those of clients and error handlers. */
  function SharedInputs(nodes: seq<NodeConfig>): set<string> {
    IdsOfType(nodes, "client") + IdsOfType(nodes, "error-handler")
  }

  function EndpointViolations(edges: seq<EdgeConfig>, ids: set<string>): seq<Violation> {
    if edges == [] then []
    else
      var e := edges[|edges| - 1];
      var from, to := BeforeFirstDot(e.source), BeforeFirstDot(e.target);
      EndpointViolations(edges[..|edges| - 1], ids)
      + (if from !in ids then [UnknownSource(from)] else [])
      + (if to !in ids then [UnknownTarget(to)] else [])
  }

  predicate TargetedBefore(edges: seq<EdgeConfig>, target: string) {
    exists e | e in edges :: e.target == target
  }

  function IncomingViolations(edges: seq<EdgeConfig>, shared: set<string>): seq<Violation> {
    if edges == [] then []
    else
      var before, e := edges[..|edges| - 1], edges[|edges| - 1];
      var to := BeforeFirstDot(e.target);
      IncomingViolations(before, shared)
      + if to !in shared && TargetedBefore(before, e.target) then [MultipleIncoming(to, e.target)] else []
  }

  function EdgeNodes(edges: seq<EdgeConfig>): set<string> {
    (set e | e in edges :: BeforeFirstDot(e.source)) + (set e | e in edges :: BeforeFirstDot(e.target))
  }

  function HandlerSet(handler: Option<string>): set<string> {
    match handler case None => {} case Some(h) => {h}
  }

  function OrphanViolations(nodes: seq<NodeConfig>, connected: set<string>): seq<Violation> {
    if nodes == [] then []
    else
      var n := nodes[|nodes| - 1];
      OrphanViolations(nodes[..|nodes| - 1], connected) + if n.id !in connected then [Orphan(n.id)] else []
  }

  function EndViolations(nodes: seq<NodeConfig>): seq<Violation> {
    (if IdsOfType(nodes, "listener") == {} then [NoListener] else [])
    + if IdsOfType(nodes, "client") == {} then [NoClient] else []
  }

  function HandlerViolations(handler: Option<string>, ids: set<string>): seq<Violation> {
    if handler.Some? && handler.value !in ids then [UnknownHandler(handler.value)] else []
  }

  function Violations(policy: PolicyConfig): seq<Violation> {
    EndViolations(policy.nodes)
    + EndpointViolations(policy.edges, NodeIds(policy.nodes))
    + IncomingViolations(policy.edges, SharedInputs(policy.nodes))
    + OrphanViolations(policy.nodes, EdgeNodes(policy.edges) + HandlerSet(policy.errorHandler))
    + HandlerViolations(policy.errorHandler, NodeIds(policy.nodes))
  }

  method HasType(nodes: seq<NodeConfig>, nodeType: string) returns (found: bool)
    ensures found <==> IdsOfType(nodes, nodeType) != {}
  {
    for i := 0 to |nodes|
      invariant forall j :: 0 <= j < i ==> nodes[j].nodeType != nodeType
    {
      if nodes[i].nodeType == nodeType {
        assert nodes[i].id in IdsOfType(nodes, nodeType);
        return true;
      }
    }
    return false;
  }

  method CheckEndpoints(edges: seq<EdgeConfig>, ids: set<string>) returns (errors: seq<Violation>)
    ensures errors == EndpointViolations(edges, ids)
  {
    errors := [];
    assert edges[..|edges|] == edges;
    for i := 0 to |edges|
      invariant errors == EndpointViolations(edges[..i], ids)
    {
      assert edges[..i + 1][..i] == edges[..i];
      var from, to := BeforeFirstDot(edges[i].source), BeforeFirstDot(edges[i].target);
      if from !in ids {
        errors := errors + [UnknownSource(from)];
      }
      if to !in ids {
        errors := errors + [UnknownTarget(to)];
      }
    }
  }

  lemma TargetedNext(edges: seq<EdgeConfig>, i: nat)
    requires i < |edges|
    ensures forall t :: TargetedBefore(edges[..i + 1], t) <==> TargetedBefore(edges[..i], t) || edges[i].target == t
  {
    assert edges[..i + 1] == edges[..i] + [edges[i]];
  }

  lemma IncomingNext(edges: seq<EdgeConfig>, shared: set<string>, i: nat)
    requires i < |edges|
    ensures var to := BeforeFirstDot(edges[i].target);
            var again := to !in shared && TargetedBefore(edges[..i], edges[i].target);
            IncomingViolations(edges[..i + 1], shared)
            == IncomingViolations(edges[..i], shared) + if again then [MultipleIncoming(to, edges[i].target)] else []
  {
    assert edges[..i + 1][..i] == edges[..i];
  }

  method CheckIncoming(edges: seq<EdgeConfig>, shared: set<string>) returns (errors: seq<Violation>)
    ensures errors == IncomingViolations(edges, shared)
  {
    errors := [];
    var inputTargets: set<string> := {};
    assert edges[..|edges|] == edges;
    for i := 0 to |edges|
      invariant errors == IncomingViolations(edges[..i], shared)
      invariant forall t :: t in inputTargets <==> TargetedBefore(edges[..i], t) && BeforeFirstDot(t) !in shared
    {
      TargetedNext(edges, i);
      IncomingNext(edges, shared, i);
      var target := edges[i].target;
      var to := BeforeFirstDot(target);
      if to !in shared {
        if target in inputTargets {
          errors := errors + [MultipleIncoming(to, target)];
        }
        inputTargets := inputTargets + {target};
      }
    }
  }

  lemma SourcesNext(before: seq<EdgeConfig>, e: EdgeConfig)
    ensures (set x | x in before + [e] :: BeforeFirstDot(x.source))
         == (set x | x in before :: BeforeFirstDot(x.source)) + {BeforeFirstDot(e.source)}
  {
    assert forall x :: x in before + [e] <==> x in before || x == e;
  }

  lemma TargetsNext(before: seq<EdgeConfig>, e: EdgeConfig)
    ensures (set x | x in before + [e] :: BeforeFirstDot(x.target))
         == (set x | x in before :: BeforeFirstDot(x.target)) + {BeforeFirstDot(e.target)}
  {
    assert forall x :: x in before + [e] <==> x in before || x == e;
  }

  lemma EdgeNodesNext(edges: seq<EdgeConfig>, i: nat)
    requires i < |edges|
    ensures EdgeNodes(edges[..i + 1])
         == EdgeNodes(edges[..i]) + {BeforeFirstDot(edges[i].source)} + {BeforeFirstDot(edges[i].target)}
  {
    assert edges[..i + 1] == edges[..i] + [edges[i]];
    SourcesNext(edges[..i], edges[i]);
    TargetsNext(edges[..i], edges[i]);
  }

  method ConnectedNodes(policy: PolicyConfig) returns (connected: set<string>)
    ensures connected == EdgeNodes(policy.edges) + HandlerSet(policy.errorHandler)
  {
    var edges := policy.edges;
    connected := {};
    assert edges[..|edges|] == edges;
    for i := 0 to |edges|
      invariant connected == EdgeNodes(edges[..i])
    {
      EdgeNodesNext(edges, i);
      connected := connected + {BeforeFirstDot(edges[i].source)} + {BeforeFirstDot(edges[i].target)};
    }
    match policy.errorHandler {
      case Some(h) => connected := connected + {h};
      case None =>
    }
  }

  method CheckOrphans(nodes: seq<NodeConfig>, connected: set<string>) returns (errors: seq<Violation>)
    ensures errors == OrphanViolations(nodes, connected)
  {
    errors := [];
    assert nodes[..|nodes|] == nodes;
    for i := 0 to |nodes|
      invariant errors == OrphanViolations(nodes[..i], connected)
    {
      assert nodes[..i + 1][..i] == nodes[..i];
      if nodes[i].id !in connected {
        errors := errors + [Orphan(nodes[i].id)];
      }
    }
  }

  method CheckEnds(nodes: seq<NodeConfig>) returns (errors: seq<Violation>)
    ensures errors == EndViolations(nodes)
  {
    errors := [];
    var hasListener := HasType(nodes, "listener");
    if !hasListener {
      errors := errors + [NoListener];
    }
    var hasClient := HasType(nodes, "client");
    if !hasClient {
      errors := errors + [NoClient];
    }
  }

  /** All violations, section by section; validation does not stop at the first one. */
  method ValidatePolicy(policy: PolicyConfig) returns (errors: seq<Violation>)
    ensures errors == Violations(policy)
  {
    errors := CheckEnds(policy.nodes);
    var ids := NodeIds(policy.nodes);
    var more := CheckEndpoints(policy.edges, ids);
    errors := errors + more;
    more := CheckIncoming(policy.edges, SharedInputs(policy.nodes));
    errors := errors + more;
    var connected := ConnectedNodes(policy);
    more := CheckOrphans(policy.nodes, connected);
    errors := errors + more;
    if policy.errorHandler.Some? && policy.errorHandler.value !in ids {
      errors := errors + [UnknownHandler(policy.errorHandler.value)];
    }
  }

  // ---- What an empty report means ----

  ghost predicate Touches(e: EdgeConfig, id: string) {
    BeforeFirstDot(e.source) == id || BeforeFirstDot(e.target) == id
  }

  ghost predicate HasNodeOfType(nodes: seq<NodeConfig>, nodeType: string) {
    exists n :: n in nodes && n.nodeType == nodeType
  }

  ghost predicate EdgesJoinNodes(edges: seq<EdgeConfig>, ids: set<string>) {
    forall e | e in edges :: BeforeFirstDot(e.source) in ids && BeforeFirstDot(e.target) in ids
  }

  ghost predicate OneEdgePerInput(edges: seq<EdgeConfig>, shared: set<string>) {
    forall i, j | 0 <= i < j < |edges| && edges[i].target == edges[j].target ::
      BeforeFirstDot(edges[j].target) in shared
  }

  ghost predicate NoOrphan(policy: PolicyConfig) {
    forall n | n in policy.nodes ::
      (exists e :: e in policy.edges && Touches(e, n.id)) || policy.errorHandler == Some(n.id)
  }

  ghost predicate WellFormed(policy: PolicyConfig) {
    && HasNodeOfType(policy.nodes, "listener")
    && HasNodeOfType(policy.nodes, "client")
    && EdgesJoinNodes(policy.edges, NodeIds(policy.nodes))
    && OneEdgePerInput(policy.edges, SharedInputs(policy.nodes))
    && NoOrphan(policy)
    && (policy.errorHandler.Some? ==> policy.errorHandler.value in NodeIds(policy.nodes))
  }

  lemma NoneOf(a: seq<Violation>, b: seq<Violation>, c: seq<Violation>)
    ensures a + b + c == [] <==> a == [] && b == [] && c == []
  {
    assert |a + b + c| == |a| + |b| + |c|;
  }

  lemma JoinNodesSnoc(before: seq<EdgeConfig>, last: EdgeConfig, ids: set<string>)
    ensures EdgesJoinNodes(before + [last], ids) <==>
              EdgesJoinNodes(before, ids) && EdgesJoinNodes([last], ids)
  {
    assert last in [last] && forall e :: e in before + [last] <==> e in before || e == last;
  }

  lemma {:induction false} EndpointsOk(edges: seq<EdgeConfig>, ids: set<string>)
    ensures EndpointViolations(edges, ids) == [] <==> EdgesJoinNodes(edges, ids)
  {
    if edges != [] {
      var before, last := edges[..|edges| - 1], edges[|edges| - 1];
      EndpointsOk(before, ids);
      assert edges == before + [last];
      JoinNodesSnoc(before, last, ids);
      var from, to := BeforeFirstDot(last.source), BeforeFirstDot(last.target);
      NoneOf(EndpointViolations(before, ids), if from !in ids then [UnknownSource(from)] else [],
             if to !in ids then [UnknownTarget(to)] else []);
      assert last in [last];
    }
  }

  lemma OnePerInputSnoc(before: seq<EdgeConfig>, last: EdgeConfig, shared: set<string>)
    ensures OneEdgePerInput(before + [last], shared) <==>
              && OneEdgePerInput(before, shared)
              && (TargetedBefore(before, last.target) ==> BeforeFirstDot(last.target) in shared)
  {
    var all := before + [last];
    assert all[|before|] == last && forall i | 0 <= i < |before| :: all[i] == before[i];
    if TargetedBefore(before, last.target) {
      var i :| 0 <= i < |before| && before[i].target == last.target;
      assert all[i].target == all[|before|].target;
    }
  }

  lemma {:induction false} IncomingOk(edges: seq<EdgeConfig>, shared: set<string>)
    ensures IncomingViolations(edges, shared) == [] <==> OneEdgePerInput(edges, shared)
  {
    if edges != [] {
      var before, last := edges[..|edges| - 1], edges[|edges| - 1];
      IncomingOk(before, shared);
      assert edges == before + [last];
      OnePerInputSnoc(before, last, shared);
    }
  }

  lemma {:induction false} OrphansOk(nodes: seq<NodeConfig>, connected: set<string>)
    ensures OrphanViolations(nodes, connected) == [] <==> forall n | n in nodes :: n.id in connected
  {
    if nodes != [] {
      var before, last := nodes[..|nodes| - 1], nodes[|nodes| - 1];
      OrphansOk(before, connected);
      assert nodes == before + [last] && last in nodes;
    }
  }

  lemma OrphanMeaning(policy: PolicyConfig)
    ensures OrphanViolations(policy.nodes, EdgeNodes(policy.edges) + HandlerSet(policy.errorHandler)) == []
       <==> NoOrphan(policy)
  {
    OrphansOk(policy.nodes, EdgeNodes(policy.edges) + HandlerSet(policy.errorHandler));
    forall id ensures id in EdgeNodes(policy.edges) <==> exists e :: e in policy.edges && Touches(e, id) {
    }
    assert forall id :: id in HandlerSet(policy.errorHandler) <==> policy.errorHandler == Some(id);
  }

  lemma TypePresent(nodes: seq<NodeConfig>, nodeType: string)
    ensures IdsOfType(nodes, nodeType) != {} <==> HasNodeOfType(nodes, nodeType)
  {
    forall n | n in nodes && n.nodeType == nodeType ensures IdsOfType(nodes, nodeType) != {} {
      assert n.id in IdsOfType(nodes, nodeType);
    }
  }

  /** The report is empty exactly for the policies that meet every structural rule. */
  lemma ValidIffWellFormed(policy: PolicyConfig)
    ensures Violations(policy) == [] <==> WellFormed(policy)
  {
    EndpointsOk(policy.edges, NodeIds(policy.nodes));
    IncomingOk(policy.edges, SharedInputs(policy.nodes));
    OrphanMeaning(policy);
    TypePresent(policy.nodes, "listener");
    TypePresent(policy.nodes, "client");
  }

  // ---- The same rules, in the declared lists alone ----

  /** A node of this id is declared. */
  ghost predicate Declared(nodes: seq<NodeConfig>, id: string) {
    exists n :: n in nodes && n.id == id
  }

  /** A client or an error handler of this id is declared: its inputs accept several edges. */
  ghost predicate TakesSeveral(nodes: seq<NodeConfig>, id: string) {
    exists n :: n in nodes && n.id == id && (n.nodeType == "client" || n.nodeType == "error-handler")
  }

  ghost predicate OneEdgeEach(policy: PolicyConfig) {
    forall i, j | 0 <= i < j < |policy.edges| && policy.edges[i].target == policy.edges[j].target ::
      TakesSeveral(policy.nodes, BeforeFirstDot(policy.edges[j].target))
  }

  ghost predicate RulesHold(policy: PolicyConfig) {
    && (exists n :: n in policy.nodes && n.nodeType == "listener")
    && (exists n :: n in policy.nodes && n.nodeType == "client")
    && (forall e | e in policy.edges ::
          Declared(policy.nodes, BeforeFirstDot(e.source)) && Declared(policy.nodes, BeforeFirstDot(e.target)))
    && OneEdgeEach(policy)
    && (forall n | n in policy.nodes ::
          || policy.errorHandler == Some(n.id)
          || exists e :: e in policy.edges && (BeforeFirstDot(e.source) == n.id || BeforeFirstDot(e.target) == n.id))
    && (policy.errorHandler.Some? ==> Declared(policy.nodes, policy.errorHandler.value))
  }

  lemma SetsSpelled(nodes: seq<NodeConfig>)
    ensures forall id :: id in NodeIds(nodes) <==> Declared(nodes, id)
    ensures forall id :: id in SharedInputs(nodes) <==> TakesSeveral(nodes, id)
  {
  }

  lemma OneEdgeSpelled(policy: PolicyConfig)
    ensures OneEdgePerInput(policy.edges, SharedInputs(policy.nodes)) <==> OneEdgeEach(policy)
  {
    SetsSpelled(policy.nodes);
  }

  lemma WellFormedSpelled(policy: PolicyConfig)
    ensures WellFormed(policy) <==> RulesHold(policy)
  {
    SetsSpelled(policy.nodes);
    OneEdgeSpelled(policy);
    forall n | n in policy.nodes
      ensures (exists e :: e in policy.edges && Touches(e, n.id)) <==>
              (exists e :: e in policy.edges && (BeforeFirstDot(e.source) == n.id || BeforeFirstDot(e.target) == n.id))
    {
      if e :| e in policy.edges && (BeforeFirstDot(e.source) == n.id || BeforeFirstDot(e.target) == n.id) {
        assert Touches(e, n.id);
      }
    }
  }

  /** The report is empty exactly for the policies that keep every rule: a listener and a client, edges between
      declared nodes, one edge into an input that is not a client's or an error handler's, no node without an edge
      but the policy's handler, and a declared handler. */
  lemma ValidIffRulesHold(policy: PolicyConfig)
    ensures Violations(policy) == [] <==> RulesHold(policy)
  {
    ValidIffWellFormed(policy);
    WellFormedSpelled(policy);
  }
}
