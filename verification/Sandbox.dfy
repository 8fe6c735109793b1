/** The plugin sandbox: a node list is synthesised into a policy and run by the ordinary engine. */
module Sandbox {
  import opened Wrappers
  import Bytes
  import Text
  import opened Policy
  import opened Validation

  datatype OnErrorMode = Stop | ToClient

  datatype SandboxError = NoNodes | ReservedType(id: string, nodeType: string) | DuplicateId(id: string)

  // ---- Synthesis ----

  function Decimal(n: nat): string {
    var digits := Bytes.Digits(n);
    seq(|digits|, i requires 0 <= i < |digits| => digits[i] as char)
  }

  /** The number that a decimal text stands for. */
  function Reading(s: string): int {
    if s == [] then 0 else Reading(s[..|s| - 1]) * 10 + (s[|s| - 1] as int - '0' as int)
  }

  /** The decimal text of a number has digits only, no leading zero but for 0 itself, and reads as the number. */
  lemma {:induction false} DecimalReads(n: nat)
    ensures var s := Decimal(n);
            && s != [] && Reading(s) == n && (s[0] == '0' ==> n == 0)
            && forall i | 0 <= i < |s| :: '0' <= s[i] <= '9'
  {
    if n >= 10 {
      DecimalReads(n / 10);
      assert Decimal(n)[..|Decimal(n)| - 1] == Decimal(n / 10);
    }
  }

  function WithId(n: NodeConfig, i: nat): NodeConfig {
    if Text.IsBlank(n.id) then n.(id := n.nodeType + "-" + Decimal(i)) else n
  }

  predicate IsReservedType(nodeType: string) { nodeType == "listener" || nodeType == "client" }

  /** The accepted nodes with their defaulted ids, or the first rejection. */
  function UserNodes(nodes: seq<NodeConfig>): Result<seq<NodeConfig>, SandboxError> {
    if nodes == [] then Ok([])
    else
      var i := |nodes| - 1;
      match UserNodes(nodes[..i])
      case Err(e) => Err(e)
      case Ok(user) =>
        var n := nodes[i];
        if IsReservedType(n.nodeType) then Err(ReservedType(n.id, n.nodeType))
        else if WithId(n, i).id in NodeIds(user) then Err(DuplicateId(WithId(n, i).id))
        else Ok(user + [WithId(n, i)])
  }

  const LISTENER := NodeConfig("listener", "listener", map[])
  const CLIENT := NodeConfig("client", "client", map[])

  /** The endpoint `id.port`. */
  function At(id: string, port: string): string { id + "." + port }

  /** The id at position `k` of the chain: the user's nodes, then the client. */
  function ChainId(user: seq<NodeConfig>, k: nat): string {
    if k < |user| then user[k].id else "client"
  }

  /** The id before position `k` of the chain: the listener, then the user's nodes. */
  function BeforeChain(user: seq<NodeConfig>, k: nat): string
    requires k <= |user|
  {
    if k == 0 then "listener" else user[k - 1].id
  }

  function ChainPort(k: nat): string { if k == 0 then "out" else "success" }

  /** Edge `k` of the success chain ends at chain position `k`. */
  function ChainEdge(user: seq<NodeConfig>, k: nat): EdgeConfig
    requires k <= |user|
  {
    EdgeConfig(At(BeforeChain(user, k), ChainPort(k)), At(ChainId(user, k), "in"))
  }

  function ErrorEdge(n: NodeConfig): EdgeConfig {
    EdgeConfig(At(n.id, "error"), At("client", "in"))
  }

  function SuccessChain(user: seq<NodeConfig>): seq<EdgeConfig> {
    seq(|user| + 1, k requires 0 <= k <= |user| => ChainEdge(user, k))
  }

  function ErrorFan(user: seq<NodeConfig>): seq<EdgeConfig> {
    seq(|user|, k requires 0 <= k < |user| => ErrorEdge(user[k]))
  }

  function SandboxEdges(user: seq<NodeConfig>, onError: OnErrorMode): seq<EdgeConfig> {
    SuccessChain(user) + if onError == ToClient then ErrorFan(user) else []
  }

  function SandboxPolicy(user: seq<NodeConfig>, onError: OnErrorMode): PolicyConfig {
    PolicyConfig("__sandbox", None, [LISTENER] + user + [CLIENT], SandboxEdges(user, onError))
  }

  lemma Endpoints(id: string)
    ensures At(id, "success") == id + ".success" && At(id, "error") == id + ".error" && At(id, "in") == id + ".in"
    ensures At("listener", "out") == "listener.out" && At("client", "in") == "client.in"
  {
    assert "." + "success" == ".success" && "." + "error" == ".error" && "." + "in" == ".in";
    assert id + "." + "success" == id + ("." + "success");
    assert id + "." + "error" == id + ("." + "error");
    assert id + "." + "in" == id + ("." + "in");
    assert "listener" + "." + "out" == "listener.out" && "client" + "." + "in" == "client.in";
  }

  lemma ChainEdgeSpelled(user: seq<NodeConfig>, k: nat)
    requires k <= |user|
    ensures ChainEdge(user, k).source == if k == 0 then "listener.out" else user[k - 1].id + ".success"
    ensures ChainEdge(user, k).target == if k < |user| then user[k].id + ".in" else "client.in"
  {
    Endpoints(BeforeChain(user, k));
    Endpoints(ChainId(user, k));
  }

  lemma ErrorEdgeSpelled(n: NodeConfig)
    ensures ErrorEdge(n) == EdgeConfig(n.id + ".error", "client.in")
  {
    Endpoints(n.id);
  }

  /** The synthesized policy: the user's nodes between a listener and a client, an edge into each node and the
      client from what stands before it, and for `ToClient` an edge from each node's failure. */
  lemma SandboxSpelled(user: seq<NodeConfig>, onError: OnErrorMode)
    ensures var p, n := SandboxPolicy(user, onError), |user|;
            && p.name == "__sandbox" && p.errorHandler == None
            && p.nodes == [NodeConfig("listener", "listener", map[])] + user + [NodeConfig("client", "client", map[])]
            && |p.edges| == (if onError == ToClient then 2 * n + 1 else n + 1)
            && (forall k | 0 <= k <= n :: p.edges[k] == ChainEdge(user, k))
            && forall k | n < k < |p.edges| :: p.edges[k] == ErrorEdge(user[k - n - 1])
  {
  }

  function Synthesized(nodes: seq<NodeConfig>, onError: OnErrorMode): Result<PolicyConfig, SandboxError> {
    if nodes == [] then Err(NoNodes)
    else match UserNodes(nodes)
      case Err(e) => Err(e)
      case Ok(user) => Ok(SandboxPolicy(user, onError))
  }

  lemma {:induction false} RejectionIsFirst(nodes: seq<NodeConfig>, k: nat)
    requires k <= |nodes| && UserNodes(nodes[..k]).Err?
    ensures UserNodes(nodes) == UserNodes(nodes[..k])
  {
    if k < |nodes| {
      assert nodes[..|nodes| - 1][..k] == nodes[..k];
      RejectionIsFirst(nodes[..|nodes| - 1], k);
    } else {
      assert nodes[..k] == nodes;
    }
  }

  method AcceptNodes(nodes: seq<NodeConfig>) returns (r: Result<seq<NodeConfig>, SandboxError>)
    ensures r == UserNodes(nodes)
  {
    var seen: set<string> := {};
    var user: seq<NodeConfig> := [];
    assert nodes[..|nodes|] == nodes;
    for i := 0 to |nodes|
      invariant UserNodes(nodes[..i]) == Ok(user) && seen == NodeIds(user)
    {
      assert nodes[..i + 1][..i] == nodes[..i];
      var n := nodes[i];
      if n.nodeType == "listener" || n.nodeType == "client" {
        RejectionIsFirst(nodes, i + 1);
        return Err(ReservedType(n.id, n.nodeType));
      }
      if Text.IsBlank(n.id) {
        n := n.(id := n.nodeType + "-" + Decimal(i));
      }
      if n.id in seen {
        RejectionIsFirst(nodes, i + 1);
        return Err(DuplicateId(n.id));
      }
      seen := seen + {n.id};
      user := user + [n];
    }
    r := Ok(user);
  }

  method SynthesizePolicy(nodes: seq<NodeConfig>, onError: OnErrorMode) returns (r: Result<PolicyConfig, SandboxError>)
    ensures r == Synthesized(nodes, onError)
  {
    if nodes == [] {
      return Err(NoNodes);
    }
    var accepted := AcceptNodes(nodes);
    if accepted.Err? {
      return Err(accepted.error);
    }
    var user := accepted.value;
    AcceptedShape(nodes);
    var edges := ChainEdges(user);
    if onError == ToClient {
      var more := ErrorEdges(user);
      edges := edges + more;
    }
    assert SuccessChain(user) + [] == SuccessChain(user);
    r := Ok(PolicyConfig("__sandbox", None, [LISTENER] + user + [CLIENT], edges));
  }

  method ChainEdges(user: seq<NodeConfig>) returns (edges: seq<EdgeConfig>)
    requires user != []
    ensures edges == SuccessChain(user)
  {
    edges := [EdgeConfig(At("listener", "out"), At(user[0].id, "in"))];
    for k := 1 to |user|
      invariant |edges| == k && forall j | 0 <= j < k :: edges[j] == ChainEdge(user, j)
    {
      edges := edges + [EdgeConfig(At(user[k - 1].id, "success"), At(user[k].id, "in"))];
    }
    edges := edges + [EdgeConfig(At(user[|user| - 1].id, "success"), At("client", "in"))];
  }

  method ErrorEdges(user: seq<NodeConfig>) returns (edges: seq<EdgeConfig>)
    ensures edges == ErrorFan(user)
  {
    edges := [];
    for k := 0 to |user|
      invariant |edges| == k && forall j | 0 <= j < k :: edges[j] == ErrorEdge(user[j])
    {
      edges := edges + [EdgeConfig(At(user[k].id, "error"), At("client", "in"))];
    }
  }

  // ---- What an accepted list looks like ----

  ghost predicate DistinctIds(user: seq<NodeConfig>) {
    forall i, j | 0 <= i < j < |user| :: user[i].id != user[j].id
  }

  ghost predicate NoReservedTypes(user: seq<NodeConfig>) {
    forall n | n in user :: !IsReservedType(n.nodeType)
  }

  lemma AcceptedLast(nodes: seq<NodeConfig>)
    requires nodes != [] && UserNodes(nodes).Ok?
    ensures var i := |nodes| - 1;
            var before, n := UserNodes(nodes[..i]), WithId(nodes[i], i);
            && before.Ok? && UserNodes(nodes).value == before.value + [n] && n.id !in NodeIds(before.value)
            && !IsReservedType(n.nodeType)
  {
  }

  lemma ShapeSnoc(before: seq<NodeConfig>, n: NodeConfig)
    requires DistinctIds(before) && NoReservedTypes(before)
    requires n.id !in NodeIds(before) && !IsReservedType(n.nodeType)
    ensures DistinctIds(before + [n]) && NoReservedTypes(before + [n])
  {
    assert forall j | 0 <= j < |before| :: before[j].id in NodeIds(before);
  }

  lemma {:induction false} AcceptedShape(nodes: seq<NodeConfig>)
    requires UserNodes(nodes).Ok?
    ensures var user := UserNodes(nodes).value;
            && |user| == |nodes| && DistinctIds(user) && NoReservedTypes(user)
            && forall i | 0 <= i < |nodes| :: user[i] == WithId(nodes[i], i)
  {
    if nodes != [] {
      var i := |nodes| - 1;
      AcceptedLast(nodes);
      AcceptedShape(nodes[..i]);
      ShapeSnoc(UserNodes(nodes[..i]).value, WithId(nodes[i], i));
    }
  }

  // ---- The synthesized policy validates exactly when no id has a dot ----

  ghost predicate DotFree(user: seq<NodeConfig>) {
    forall n | n in user :: '.' !in n.id
  }

  lemma ReadAt(id: string, port: string)
    requires '.' !in port
    ensures ParseEdgeEndpoint(At(id, port)) == Endpoint(id, port)
    ensures '.' !in id ==> BeforeFirstDot(At(id, port)) == id
  {
    ParseJoined(id, port);
    if '.' !in id {
      FirstOfJoined(id, port);
    }
  }

  /** How validation and the compiler read the chain edges. */
  lemma ChainEdgeParts(user: seq<NodeConfig>, k: nat)
    requires k <= |user|
    ensures var e := ChainEdge(user, k);
            && ParseEdgeEndpoint(e.source) == Endpoint(BeforeChain(user, k), ChainPort(k))
            && ParseEdgeEndpoint(e.target) == Endpoint(ChainId(user, k), "in")
            && (DotFree(user) ==> BeforeFirstDot(e.source) == BeforeChain(user, k))
            && (DotFree(user) ==> BeforeFirstDot(e.target) == ChainId(user, k))
  {
    ReadAt(BeforeChain(user, k), ChainPort(k));
    ReadAt(ChainId(user, k), "in");
  }

  lemma ErrorEdgeParts(n: NodeConfig)
    ensures ParseEdgeEndpoint(ErrorEdge(n).source) == Endpoint(n.id, "error")
    ensures ParseEdgeEndpoint(ErrorEdge(n).target) == Endpoint("client", "in")
    ensures BeforeFirstDot(ErrorEdge(n).target) == "client"
    ensures '.' !in n.id ==> BeforeFirstDot(ErrorEdge(n).source) == n.id
  {
    ReadAt(n.id, "error");
    ReadAt("client", "in");
  }

  lemma SandboxNodes(user: seq<NodeConfig>, onError: OnErrorMode)
    ensures var nodes := SandboxPolicy(user, onError).nodes;
            && (forall n :: n in nodes <==> n == LISTENER || n == CLIENT || n in user)
            && NodeIds(nodes) == NodeIds(user) + {"listener", "client"}
  {
    Bracketed(LISTENER, user, CLIENT);
  }

  lemma Bracketed(l: NodeConfig, user: seq<NodeConfig>, c: NodeConfig)
    ensures forall n :: n in [l] + user + [c] <==> n == l || n == c || n in user
    ensures NodeIds([l] + user + [c]) == NodeIds(user) + {l.id, c.id}
  {
    var nodes := [l] + user + [c];
    assert nodes[0] == l && nodes[|nodes| - 1] == c;
    assert forall i | 0 <= i < |user| :: nodes[i + 1] == user[i];
    assert l in nodes && c in nodes && forall n | n in user :: n in nodes;
    forall id ensures id in NodeIds(nodes) <==> id in NodeIds(user) || id == l.id || id == c.id {
    }
  }

  /** Every synthesized edge joins two chain ids: a chain edge or a user node's error edge. */
  lemma EdgeAt(user: seq<NodeConfig>, onError: OnErrorMode, k: nat)
    requires k < |SandboxEdges(user, onError)|
    ensures k <= |user| ==> SandboxEdges(user, onError)[k] == ChainEdge(user, k)
    ensures k > |user| ==>
              k - |user| - 1 < |user| && SandboxEdges(user, onError)[k] == ErrorEdge(user[k - |user| - 1])
  {
  }

  lemma SandboxEdgeCases(user: seq<NodeConfig>, onError: OnErrorMode, e: EdgeConfig)
    requires e in SandboxEdges(user, onError)
    ensures (exists k | 0 <= k <= |user| :: e == ChainEdge(user, k)) || (exists n | n in user :: e == ErrorEdge(n))
  {
    var k :| 0 <= k < |SandboxEdges(user, onError)| && SandboxEdges(user, onError)[k] == e;
    EdgeAt(user, onError, k);
    if k > |user| {
      assert user[k - |user| - 1] in user;
    }
  }

  lemma ChainIdDeclared(user: seq<NodeConfig>, k: nat)
    requires k <= |user|
    ensures ChainId(user, k) in NodeIds(user) + {"client"} && BeforeChain(user, k) in NodeIds(user) + {"listener"}
  {
    assert forall i | 0 <= i < |user| :: user[i] in user && user[i].id in NodeIds(user);
  }

  lemma SandboxEdgesJoin(user: seq<NodeConfig>, onError: OnErrorMode)
    requires DotFree(user)
    ensures EdgesJoinNodes(SandboxEdges(user, onError), NodeIds(user) + {"listener", "client"})
  {
    var ids := NodeIds(user) + {"listener", "client"};
    forall e | e in SandboxEdges(user, onError)
      ensures BeforeFirstDot(e.source) in ids && BeforeFirstDot(e.target) in ids
    {
      SandboxEdgeCases(user, onError, e);
      if k: nat :| 0 <= k <= |user| && e == ChainEdge(user, k) {
        ChainEdgeParts(user, k);
        ChainIdDeclared(user, k);
      } else {
        var n :| n in user && e == ErrorEdge(n);
        ErrorEdgeParts(n);
      }
    }
  }

  /** Two edges may share a target only at the client. */
  lemma SharedTargetIsClient(user: seq<NodeConfig>, onError: OnErrorMode, i: nat, j: nat)
    requires DotFree(user) && DistinctIds(user)
    requires i < j < |SandboxEdges(user, onError)|
    requires SandboxEdges(user, onError)[i].target == SandboxEdges(user, onError)[j].target
    ensures BeforeFirstDot(SandboxEdges(user, onError)[j].target) == "client"
  {
    if j <= |user| {
      ChainEdgeParts(user, i);
      ChainEdgeParts(user, j);
      assert ChainId(user, i) == ChainId(user, j);
    } else {
      ErrorEdgeParts(user[j - |user| - 1]);
    }
  }

  lemma SandboxInputsFree(user: seq<NodeConfig>, onError: OnErrorMode)
    requires DotFree(user) && DistinctIds(user)
    ensures OneEdgePerInput(SandboxEdges(user, onError), SharedInputs(SandboxPolicy(user, onError).nodes))
  {
    var edges, nodes := SandboxEdges(user, onError), SandboxPolicy(user, onError).nodes;
    SandboxNodes(user, onError);
    assert CLIENT in nodes && CLIENT.id in IdsOfType(nodes, "client");
    forall i: nat, j: nat | i < j < |edges| && edges[i].target == edges[j].target
      ensures BeforeFirstDot(edges[j].target) == "client"
    {
      SharedTargetIsClient(user, onError, i, j);
    }
  }

  lemma ChainTouches(user: seq<NodeConfig>, onError: OnErrorMode, k: nat)
    requires k <= |user| && DotFree(user)
    ensures ChainEdge(user, k) in SandboxEdges(user, onError)
    ensures Touches(ChainEdge(user, k), BeforeChain(user, k)) && Touches(ChainEdge(user, k), ChainId(user, k))
  {
    ChainEdgeParts(user, k);
    assert SandboxEdges(user, onError)[k] == ChainEdge(user, k);
  }

  lemma SandboxConnected(user: seq<NodeConfig>, onError: OnErrorMode)
    requires user != [] && DotFree(user)
    ensures NoOrphan(SandboxPolicy(user, onError))
  {
    var p := SandboxPolicy(user, onError);
    SandboxNodes(user, onError);
    forall n | n in p.nodes ensures exists e :: e in p.edges && Touches(e, n.id) {
      if n == LISTENER {
        ChainTouches(user, onError, 0);
      } else if n in user {
        var i: nat :| i < |user| && user[i] == n;
        ChainTouches(user, onError, i);
      } else {
        ChainTouches(user, onError, |user|);
      }
    }
  }

  /** The synthesized policy passes validation exactly when no id has a dot: a dotted id is always
      reported as an orphan, since validation reads endpoints up to the first dot. */
  lemma SandboxValidatesIff(user: seq<NodeConfig>, onError: OnErrorMode)
    requires user != [] && DistinctIds(user)
    ensures Violations(SandboxPolicy(user, onError)) == [] <==> DotFree(user)
  {
    ValidIffWellFormed(SandboxPolicy(user, onError));
    if DotFree(user) {
      SandboxWellFormed(user, onError);
    } else {
      DottedIdIsOrphan(user, onError);
    }
  }

  lemma SandboxWellFormed(user: seq<NodeConfig>, onError: OnErrorMode)
    requires user != [] && DistinctIds(user) && DotFree(user)
    ensures WellFormed(SandboxPolicy(user, onError))
  {
    var p := SandboxPolicy(user, onError);
    SandboxNodes(user, onError);
    SandboxEdgesJoin(user, onError);
    SandboxInputsFree(user, onError);
    SandboxConnected(user, onError);
    assert LISTENER in p.nodes && CLIENT in p.nodes;
  }

  lemma DottedIdIsOrphan(user: seq<NodeConfig>, onError: OnErrorMode)
    requires !DotFree(user)
    ensures !NoOrphan(SandboxPolicy(user, onError))
  {
    var p := SandboxPolicy(user, onError);
    SandboxNodes(user, onError);
    var n :| n in user && '.' in n.id;
    assert n in p.nodes;
    assert forall e :: !Touches(e, n.id);
  }
}
