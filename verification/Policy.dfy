/** Policy configuration (`gateway.yaml`) and the request context that flows through a policy graph. */
module Policy {
  import opened Wrappers
  import opened Bytes

  type Config = map<string, string>

  datatype NodeConfig = NodeConfig(id: string, nodeType: string, config: Config)

  /** Both ends are written `node_id.port`. */
  datatype EdgeConfig = EdgeConfig(source: string, target: string)

  datatype PolicyConfig = PolicyConfig(
    name: string,
    errorHandler: Option<string>,
    nodes: seq<NodeConfig>,
    edges: seq<EdgeConfig>)

  function IdsOfType(nodes: seq<NodeConfig>, nodeType: string): set<string> {
    set n | n in nodes && n.nodeType == nodeType :: n.id
  }

  datatype GatewayError = GatewayError(nodeId: string, code: string, message: string)

  type Headers = map<string, seq<string>>

  datatype Request = Request(verb: string, path: string, headers: Headers, query: Headers, body: Str)

  datatype Response = Response(status: nat, headers: Headers, body: Str)

  datatype Context = Context(
    request: Request,
    response: Response,
    message: map<string, string>,
    errors: seq<GatewayError>)

  predicate IsLastDot(s: string, i: nat) {
    i < |s| && s[i] == '.' && '.' !in s[i + 1..]
  }

  lemma {:induction false} LastDotExists(s: string)
    requires '.' in s
    ensures exists i: nat :: IsLastDot(s, i)
  {
    var n := |s| - 1;
    if s[n] == '.' {
      assert IsLastDot(s, n);
    } else {
      LastDotExists(s[..n]);
      var i: nat :| IsLastDot(s[..n], i);
      assert s[i + 1..] == s[..n][i + 1..] + [s[n]];
      assert IsLastDot(s, i);
    }
  }

  lemma LastDotUnique(s: string, i: nat, j: nat)
    requires IsLastDot(s, i) && IsLastDot(s, j)
    ensures i == j
  {
    var p, q := s[i + 1..], s[j + 1..];
    assert forall k | i < k < |s| :: s[k] == p[k - i - 1];
    assert forall k | j < k < |s| :: s[k] == q[k - j - 1];
  }

  /** The index of the last dot. */
  function LastDot(s: string): (r: Option<nat>)
    ensures r.None? <==> '.' !in s
    ensures r.Some? ==> IsLastDot(s, r.value)
  {
    if '.' !in s then None
    else
      LastDotExists(s);
      assert forall i: nat, j: nat | IsLastDot(s, i) && IsLastDot(s, j) :: i == j by {
        forall i: nat, j: nat | IsLastDot(s, i) && IsLastDot(s, j) ensures i == j {
          LastDotUnique(s, i, j);
        }
      }
      var i: nat :| i < |s| && IsLastDot(s, i);
      Some(i)
  }

  /** What the compiler reads from `node_id.port`: it splits at the last dot, and a missing port is `out`. */
  datatype Endpoint = Endpoint(node: string, port: string)

  function ParseEdgeEndpoint(endpoint: string): (e: Endpoint)
    ensures '.' !in e.port
    ensures '.' in endpoint ==> endpoint == e.node + "." + e.port
    ensures '.' !in endpoint ==> e == Endpoint(endpoint, "out")
  {
    match LastDot(endpoint)
    case Some(dot) => Endpoint(endpoint[..dot], endpoint[dot + 1..])
    case None => Endpoint(endpoint, "out")
  }

  predicate IsFirstDot(s: string, i: nat) {
    i < |s| && s[i] == '.' && '.' !in s[..i]
  }

  lemma {:induction false} FirstDotExists(s: string)
    requires '.' in s
    ensures exists i: nat :: IsFirstDot(s, i)
  {
    if s[0] == '.' {
      assert IsFirstDot(s, 0);
    } else {
      FirstDotExists(s[1..]);
      var i: nat :| IsFirstDot(s[1..], i);
      assert s[..i + 1] == [s[0]] + s[1..][..i];
      assert IsFirstDot(s, i + 1);
    }
  }

  lemma FirstDotUnique(s: string, i: nat, j: nat)
    requires IsFirstDot(s, i) && IsFirstDot(s, j)
    ensures i == j
  {
    var p, q := s[..i], s[..j];
    assert forall k | 0 <= k < i :: s[k] == p[k];
    assert forall k | 0 <= k < j :: s[k] == q[k];
  }

  /** What validation reads from `node_id.port`: everything before the first dot. */
  function BeforeFirstDot(s: string): (r: string)
    ensures '.' !in r && |r| <= |s| && s[..|r|] == r
    ensures r == s || s[|r|] == '.'
  {
    if '.' !in s then s
    else
      FirstDotExists(s);
      assert forall i: nat, j: nat | IsFirstDot(s, i) && IsFirstDot(s, j) :: i == j by {
        forall i: nat, j: nat | IsFirstDot(s, i) && IsFirstDot(s, j) ensures i == j {
          FirstDotUnique(s, i, j);
        }
      }
      var i: nat :| i < |s| && IsFirstDot(s, i);
      s[..i]
  }

  predicate AtMostOneDot(s: string) {
    forall i, j :: 0 <= i < j < |s| && s[i] == '.' ==> s[j] != '.'
  }

  /** No dot lies before the first one, none after the last one. */
  lemma DotsBetween(s: string, i: nat)
    requires i < |s| && s[i] == '.'
    ensures |BeforeFirstDot(s)| <= i && LastDot(s).Some? && i <= LastDot(s).value
  {
    var first := BeforeFirstDot(s);
    assert forall j | 0 <= j < |first| :: s[j] == first[j] && first[j] in first;
    var dot := LastDot(s).value;
    var rest := s[dot + 1..];
    assert forall j | dot < j < |s| :: s[j] == rest[j - dot - 1];
  }

  lemma NoDotAfter(s: string, j: nat)
    requires j < |s| && LastDot(s).Some? && j > LastDot(s).value
    ensures s[j] != '.'
  {
    var dot := LastDot(s).value;
    assert s[j] == s[dot + 1..][j - dot - 1];
  }

  /** The two readings of an endpoint agree exactly when it has at most one dot. */
  lemma SplitsAgree(s: string)
    ensures ParseEdgeEndpoint(s).node == BeforeFirstDot(s) <==> AtMostOneDot(s)
  {
    var first := BeforeFirstDot(s);
    if '.' !in s {
      assert first == s;
    } else {
      var dot := LastDot(s).value;
      DotsBetween(s, dot);
      if |first| < dot {
        assert s[|first|] == '.' && s[dot] == '.';
      } else {
        forall i, j | 0 <= i < j < |s| && s[i] == '.' ensures s[j] != '.' {
          DotsBetween(s, i);
          NoDotAfter(s, j);
        }
      }
    }
  }

  /** `node.port` is read back as written, whatever dots the node has. */
  lemma ParseJoined(node: string, port: string)
    requires '.' !in port
    ensures ParseEdgeEndpoint(node + "." + port) == Endpoint(node, port)
  {
    var s := node + "." + port;
    assert s[|node|] == '.';
    var dot := LastDot(s).value;
    var tail := s[dot + 1..];
    assert forall k :: dot < k < |s| ==> s[k] == tail[k - dot - 1];
    assert forall k :: |node| < k < |s| ==> s[k] == port[k - |node| - 1];
    assert s[..|node|] == node && s[|node| + 1..] == port;
  }

  /** What stands before the first dot is read back when it has no dot itself. */
  lemma FirstOfJoined(node: string, rest: string)
    requires '.' !in node
    ensures BeforeFirstDot(node + "." + rest) == node
  {
    var s := node + "." + rest;
    assert s[|node|] == '.' && s[..|node|] == node;
    assert IsFirstDot(s, |node|);
    var r := BeforeFirstDot(s);
    assert forall k | 0 <= k < |node| :: s[k] == node[k];
    assert forall k | 0 <= k < |r| :: s[k] == r[k] && r[k] in r;
  }
}
