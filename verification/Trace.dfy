/** Trace records: redacted snapshots of the context, captured bodies, and the step recorder. */
module Trace {
  import opened Wrappers
  import opened Bytes
  import opened Policy
  import Utf8

  // ---- Redaction ----

  const REDACTED := "<redacted>"

  const DEFAULT_REDACT_HEADERS: set<string> := {
    "authorization", "proxy-authorization", "cookie", "set-cookie", "x-api-key", "api-key", "apikey",
    "x-auth-token", "x-access-token", "x-csrf-token", "x-amz-security-token", "x-forwarded-client-cert"
  }

  const DEFAULT_REDACT_QUERY: set<string> := {
    "access_token", "id_token", "refresh_token", "token", "api_key", "apikey", "code", "client_secret", "state"
  }

  const DEFAULT_REDACT_MESSAGE_SUBSTRINGS: set<string> := {
    "secret", "password", "passwd", "token", "credential", "private_key", "authorization", "jwt"
  }

  /** The operator's extra names, already lower-cased; `lower` is Unicode lower-casing. */
  datatype RedactionPolicy = RedactionPolicy(
    headers: set<string>, queryParams: set<string>, messageKeys: set<string>, lower: string -> string)
  {
    predicate HeaderIsSecret(name: string) { lower(name) in DEFAULT_REDACT_HEADERS + headers }

    predicate QueryIsSecret(name: string) { lower(name) in DEFAULT_REDACT_QUERY + queryParams }

    predicate MessageIsSecret(key: string) {
      lower(key) in messageKeys || exists s | s in DEFAULT_REDACT_MESSAGE_SUBSTRINGS :: Contains(lower(key), s)
    }
  }

  predicate Contains(s: string, sub: string) {
    sub <= s || (s != [] && Contains(s[1..], sub))
  }

  lemma {:induction false} ContainsIff(s: string, sub: string)
    ensures Contains(s, sub) <==> exists i :: 0 <= i <= |s| && sub <= s[i..]
  {
    if s != [] {
      ContainsIff(s[1..], sub);
      if i :| 0 <= i <= |s[1..]| && sub <= s[1..][i..] {
        assert s[1..][i..] == s[i + 1..];
      }
      if i :| 0 < i <= |s| && sub <= s[i..] {
        assert s[1..][i - 1..] == s[i..];
      }
    }
    assert s[0..] == s;
  }

  /** The fixed names, and those of the operator. */
  lemma SecretHeaders(r: RedactionPolicy, name: string)
    ensures r.HeaderIsSecret(name) <==>
              || r.lower(name) in [
                   "authorization", "proxy-authorization", "cookie", "set-cookie", "x-api-key", "api-key", "apikey",
                   "x-auth-token", "x-access-token", "x-csrf-token", "x-amz-security-token", "x-forwarded-client-cert"]
              || r.lower(name) in r.headers
  {
  }

  lemma SecretQueryParameters(r: RedactionPolicy, name: string)
    ensures r.QueryIsSecret(name) <==>
              || r.lower(name) in [
                   "access_token", "id_token", "refresh_token", "token", "api_key", "apikey", "code", "client_secret",
                   "state"]
              || r.lower(name) in r.queryParams
  {
  }

  ghost predicate Within(s: string, sub: string) {
    exists i :: 0 <= i <= |s| && sub <= s[i..]
  }

  lemma SecretMessageKeys(r: RedactionPolicy, key: string)
    ensures var low := r.lower(key);
            r.MessageIsSecret(key) <==>
              || low in r.messageKeys
              || Within(low, "secret") || Within(low, "password") || Within(low, "passwd") || Within(low, "token")
              || Within(low, "credential") || Within(low, "private_key") || Within(low, "authorization")
              || Within(low, "jwt")
  {
    HoldsAny(r.lower(key));
  }

  lemma HoldsAny(low: string)
    ensures (exists s | s in DEFAULT_REDACT_MESSAGE_SUBSTRINGS :: Contains(low, s)) <==>
              || Within(low, "secret") || Within(low, "password") || Within(low, "passwd") || Within(low, "token")
              || Within(low, "credential") || Within(low, "private_key") || Within(low, "authorization")
              || Within(low, "jwt")
  {
    forall s ensures Contains(low, s) <==> Within(low, s) {
      ContainsIff(low, s);
    }
  }

  function RedactMap(src: Headers, isSecret: string -> bool): Headers {
    map k | k in src :: if isSecret(k) then seq(|src[k]|, _ => REDACTED) else src[k]
  }

  function RedactMessage(src: map<string, string>, isSecret: string -> bool): map<string, string> {
    map k | k in src :: if isSecret(k) then REDACTED else src[k]
  }

  // ---- Body capture ----

  datatype BodyCapture = BodyCapture(len: nat, text: Option<Str>, truncated: bool, sameAsBefore: bool, binary: bool)

  datatype CaptureOptions = CaptureOptions(captureBodies: bool, maxBodyBytes: nat, redaction: RedactionPolicy)

  function CaptureBody(body: Str, prev: Option<Str>, opts: CaptureOptions): BodyCapture {
    if !opts.captureBodies then BodyCapture(|body|, None, false, false, false)
    else if prev == Some(body) then BodyCapture(|body|, None, false, true, false)
    else
      var truncated := |body| > opts.maxBodyBytes;
      var slice := if truncated then body[..opts.maxBodyBytes] else body;
      match Utf8.FromUtf8(slice)
      case Valid => BodyCapture(|body|, Some(slice), truncated, false, false)
      case Invalid(v, None) => BodyCapture(|body|, Some(slice[..v]), true, false, false)
      case Invalid(_, Some(_)) => BodyCapture(|body|, None, truncated, false, true)
  }

  /** A valid text is never taken for binary, whatever the limit; what is kept is the longest valid
      prefix within the limit, at most 3 bytes short of it, and the flag says whether any was lost. */
  lemma CapturedText(body: Str, prev: Option<Str>, opts: CaptureOptions)
    requires opts.captureBodies && Utf8.IsUtf8(body) && prev != Some(body)
    ensures var c := CaptureBody(body, prev, opts);
            var limit := if |body| > opts.maxBodyBytes then opts.maxBodyBytes else |body|;
            && !c.binary && !c.sameAsBefore && c.len == |body|
            && c.text.Some? && Utf8.IsUtf8(c.text.value)
            && c.text.value <= body
            && limit - 3 <= |c.text.value| <= limit
            && (forall k :: 0 <= k <= limit && Utf8.IsUtf8(body[..k]) ==> k <= |c.text.value|)
            && (c.truncated <==> |body| > opts.maxBodyBytes)
            && (!c.truncated ==> c.text.value == body)
  {
    var limit := if |body| > opts.maxBodyBytes then opts.maxBodyBytes else |body|;
    assert body[..|body|] == body;
    Utf8.CutOfValid(body, limit);
    assert body[..limit][..Utf8.ValidLen(body[..limit])] == body[..Utf8.ValidLen(body[..limit])];
    forall k | 0 <= k <= limit && Utf8.IsUtf8(body[..k]) ensures k <= Utf8.ValidLen(body[..limit]) {
      Utf8.CutIsLongest(body, limit, k);
    }
  }

  /** The `truncated` flag is documented as "clipped to the limit". For bodies that are not valid UTF-8
      it also fires when the kept bytes end inside a character: exactly then, or when the limit clipped. */
  lemma TruncatedIff(body: Str, prev: Option<Str>, opts: CaptureOptions)
    requires opts.captureBodies && prev != Some(body)
    ensures CaptureBody(body, prev, opts).truncated <==>
            || |body| > opts.maxBodyBytes
            || (Utf8.FromUtf8(body).Invalid? && Utf8.FromUtf8(body).errorLen.None?)
  {
  }

  /** Two bytes of a three-byte character, far below the limit, are flagged truncated. */
  lemma TruncatedWithoutClipping(opts: CaptureOptions)
    requires opts.captureBodies && opts.maxBodyBytes == 8192
    ensures CaptureBody([0xE2, 0x82], None, opts).truncated
  {
  }

  // ---- Snapshots ----

  datatype RequestSnapshot =
    RequestSnapshot(verb: string, path: string, headers: Headers, query: Headers, body: BodyCapture)

  datatype ResponseSnapshot = ResponseSnapshot(status: nat, headers: Headers, body: BodyCapture)

  datatype Snapshot = Snapshot(
    request: RequestSnapshot, response: ResponseSnapshot, message: map<string, string>, errors: seq<GatewayError>)

  datatype PreviousBodies = PreviousBodies(request: Option<Str>, response: Option<Str>)

  const NO_BODIES := PreviousBodies(None, None)

  function BodiesOf(ctx: Context): PreviousBodies {
    PreviousBodies(Some(ctx.request.body), Some(ctx.response.body))
  }

  function Capture(ctx: Context, opts: CaptureOptions, prev: PreviousBodies): Snapshot {
    var r := opts.redaction;
    Snapshot(
      RequestSnapshot(
        ctx.request.verb, ctx.request.path,
        RedactMap(ctx.request.headers, k => r.HeaderIsSecret(k)),
        RedactMap(ctx.request.query, k => r.QueryIsSecret(k)),
        CaptureBody(ctx.request.body, prev.request, opts)),
      ResponseSnapshot(
        ctx.response.status,
        RedactMap(ctx.response.headers, k => r.HeaderIsSecret(k)),
        CaptureBody(ctx.response.body, prev.response, opts)),
      RedactMessage(ctx.message, k => r.MessageIsSecret(k)),
      ctx.errors)
  }

  /** With capture on a body is marked as unchanged exactly when it equals the one before, and then not kept again. */
  lemma UnchangedIsMarked(body: Str, prev: Option<Str>, opts: CaptureOptions)
    requires opts.captureBodies
    ensures var c := CaptureBody(body, prev, opts);
            && c.len == |body| && (c.sameAsBefore <==> prev == Some(body))
            && (c.sameAsBefore ==> c.text == None && !c.truncated && !c.binary)
  {
  }

  /** With body capture off no byte of a body is kept, only its length. */
  lemma CaptureOffKeepsNoByte(body: Str, prev: Option<Str>, opts: CaptureOptions)
    requires !opts.captureBodies
    ensures var c := CaptureBody(body, prev, opts);
            c.len == |body| && c.text == None && !c.truncated && !c.sameAsBefore && !c.binary
  {
  }

  /** As many values as before: each one is hidden if the name is secret, and shown if it is not. */
  ghost predicate HidesExactly(before: Headers, after: Headers, isSecret: string -> bool) {
    && after.Keys == before.Keys
    && forall k | k in before ::
         && |after[k]| == |before[k]|
         && forall i | 0 <= i < |before[k]| :: after[k][i] == if isSecret(k) then "<redacted>" else before[k][i]
  }

  /** What a snapshot shows of a context: everything but the bodies, with the values of secret names hidden. */
  lemma SnapshotHidesExactly(ctx: Context, opts: CaptureOptions, prev: PreviousBodies)
    ensures var s, r := Capture(ctx, opts, prev), opts.redaction;
            && s.request.verb == ctx.request.verb && s.request.path == ctx.request.path
            && s.response.status == ctx.response.status && s.errors == ctx.errors
            && HidesExactly(ctx.request.headers, s.request.headers, k => r.HeaderIsSecret(k))
            && HidesExactly(ctx.request.query, s.request.query, k => r.QueryIsSecret(k))
            && HidesExactly(ctx.response.headers, s.response.headers, k => r.HeaderIsSecret(k))
            && s.message.Keys == ctx.message.Keys
            && forall k | k in ctx.message ::
                 s.message[k] == if r.MessageIsSecret(k) then "<redacted>" else ctx.message[k]
  {
    var r := opts.redaction;
    RedactedExactly(ctx.request.headers, k => r.HeaderIsSecret(k));
    RedactedExactly(ctx.request.query, k => r.QueryIsSecret(k));
    RedactedExactly(ctx.response.headers, k => r.HeaderIsSecret(k));
  }

  lemma RedactedExactly(src: Headers, isSecret: string -> bool)
    ensures HidesExactly(src, RedactMap(src, isSecret), isSecret)
  {
  }

  /** Same names and arities, and the same values wherever the name is not secret. */
  ghost predicate SameExceptSecrets(a: Headers, b: Headers, isSecret: string -> bool) {
    && a.Keys == b.Keys
    && forall k | k in a :: if isSecret(k) then |a[k]| == |b[k]| else a[k] == b[k]
  }

  /** Redaction at capture time: contexts that differ only in secret header, query and message values
      leave the very same snapshot, so no secret value enters the trace. */
  lemma SecretsNeverEnterTheTrace(a: Context, b: Context, opts: CaptureOptions, prev: PreviousBodies)
    requires a.(request := b.request, response := b.response, message := b.message) == b
    requires a.request.(headers := b.request.headers, query := b.request.query) == b.request
    requires a.response.(headers := b.response.headers) == b.response
    requires SameExceptSecrets(a.request.headers, b.request.headers, k => opts.redaction.HeaderIsSecret(k))
    requires SameExceptSecrets(a.request.query, b.request.query, k => opts.redaction.QueryIsSecret(k))
    requires SameExceptSecrets(a.response.headers, b.response.headers, k => opts.redaction.HeaderIsSecret(k))
    requires a.message.Keys == b.message.Keys
    requires forall k | k in a.message && !opts.redaction.MessageIsSecret(k) :: a.message[k] == b.message[k]
    ensures Capture(a, opts, prev) == Capture(b, opts, prev)
  {
    RedactedAlike(a.request.headers, b.request.headers, k => opts.redaction.HeaderIsSecret(k));
    RedactedAlike(a.request.query, b.request.query, k => opts.redaction.QueryIsSecret(k));
    RedactedAlike(a.response.headers, b.response.headers, k => opts.redaction.HeaderIsSecret(k));
    assert RedactMessage(a.message, k => opts.redaction.MessageIsSecret(k))
        == RedactMessage(b.message, k => opts.redaction.MessageIsSecret(k));
  }

  lemma RedactedAlike(a: Headers, b: Headers, isSecret: string -> bool)
    requires SameExceptSecrets(a, b, isSecret)
    ensures RedactMap(a, isSecret) == RedactMap(b, isSecret)
  {
    var x, y := RedactMap(a, isSecret), RedactMap(b, isSecret);
    forall k | k in a ensures x[k] == y[k] {
    }
  }

  // ---- The recorder ----

  datatype StepOutcome = Succeeded | Errored(code: string, message: string)

  datatype EdgeKind = Success | Error | CatchAll | Terminal | EndOfChain | Unhandled | NodeNotFound

  datatype NodeStep = NodeStep(
    index: nat,
    nodeId: string,
    nodeType: string,
    outcome: StepOutcome,
    edge: EdgeKind,
    nextNodeId: Option<string>,
    after: Snapshot)

  datatype Note = StepLimit(limit: nat) | ABodyWasTruncated

  /** The value of a recorder. */
  datatype Recording = Recording(
    opts: CaptureOptions,
    maxSteps: nat,
    prevBodies: PreviousBodies,
    initial: Snapshot,
    steps: seq<NodeStep>,
    notes: seq<Note>,
    truncated: bool)

  function StartRecording(ctx: Context, opts: CaptureOptions, maxSteps: nat): Recording {
    Recording(opts, maxSteps, BodiesOf(ctx), Capture(ctx, opts, NO_BODIES), [], [], false)
  }

  function Record(
    r: Recording, nodeId: string, nodeType: string, outcome: StepOutcome, edge: EdgeKind,
    next: Option<string>, ctx: Context): Recording
  {
    if |r.steps| >= r.maxSteps then
      if r.truncated then r else r.(truncated := true, notes := r.notes + [StepLimit(r.maxSteps)])
    else
      var after := Capture(ctx, r.opts, r.prevBodies);
      var clipped := after.request.body.truncated || after.response.body.truncated;
      r.(prevBodies := BodiesOf(ctx),
         notes := if clipped && ABodyWasTruncated !in r.notes then r.notes + [ABodyWasTruncated] else r.notes,
         steps := r.steps + [NodeStep(|r.steps|, nodeId, nodeType, outcome, edge, next, after)])
  }

  class TraceRecorder {
    const opts: CaptureOptions
    const maxSteps: nat
    const initial: Snapshot
    var prevBodies: PreviousBodies
    var steps: seq<NodeStep>
    var notes: seq<Note>
    var truncated: bool

    ghost function Value(): Recording
      reads this
    {
      Recording(opts, maxSteps, prevBodies, initial, steps, notes, truncated)
    }

    /** Starts a recording, capturing the context as it enters the graph. */
    constructor (ctx: Context, opts: CaptureOptions, maxSteps: nat)
      ensures Value() == StartRecording(ctx, opts, maxSteps)
      ensures prevBodies == PreviousBodies(Some(ctx.request.body), Some(ctx.response.body))
    {
      this.opts, this.maxSteps := opts, maxSteps;
      initial := Capture(ctx, opts, NO_BODIES);
      prevBodies := BodiesOf(ctx);
      steps, notes, truncated := [], [], false;
    }

    /** Records one node execution, or notes once that the limit was reached. */
    method RecordStep(
      nodeId: string, nodeType: string, outcome: StepOutcome, edge: EdgeKind, next: Option<string>, ctx: Context)
      modifies this
      ensures Value() == Record(old(Value()), nodeId, nodeType, outcome, edge, next, ctx)
      ensures |old(steps)| < maxSteps ==>
                prevBodies == PreviousBodies(Some(ctx.request.body), Some(ctx.response.body))
    {
      if |steps| >= maxSteps {
        if !truncated {
          truncated := true;
          notes := notes + [StepLimit(maxSteps)];
        }
        return;
      }
      var after := Capture(ctx, opts, prevBodies);
      prevBodies := BodiesOf(ctx);
      if after.request.body.truncated || after.response.body.truncated {
        var note := ABodyWasTruncated;
        if note !in notes {
          notes := notes + [note];
        }
      }
      steps := steps + [NodeStep(|steps|, nodeId, nodeType, outcome, edge, next, after)];
    }
  }
}
