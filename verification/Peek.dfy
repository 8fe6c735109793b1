/** Peeking the ClientHello of a TCP stream: bytes are consumed until the SNI is resolved, and kept for
    replay to the upstream. */
module Peek {
  import opened Wrappers
  import opened Bytes
  import opened Numbers
  import opened Sni
  import opened ClientHello
  import Ascii

  const MAX_CLIENT_HELLO := 8192

  /** One `read`: some bytes (none at end of stream), or an error or the timeout. */
  datatype Read = Data(bytes: Str) | Failure {
    predicate Delivers() { Data? && bytes != [] }

    function Taken(): Str { if Data? then bytes else [] }
  }

  /** All bytes that a list of reads took off the connection. */
  function Received(input: seq<Read>): Str {
    if input == [] then [] else input[0].Taken() + Received(input[1..])
  }

  function Capped(s: Str): Str {
    if |s| <= MAX_CLIENT_HELLO then s else s[..MAX_CLIENT_HELLO]
  }

  /** The parser's last answer, the bytes kept, and the number of reads made. */
  datatype Peeked = Peeked(answer: SniResult, buf: Str, used: nat)

  /** The peek with a parser still to choose. */
  function PeekFrom(parse: Str -> SniResult, buf: Str, input: seq<Read>): (p: Peeked)
    ensures p.used <= |input|
    decreases input
  {
    var answer := parse(buf);
    if answer != Incomplete || |buf| >= MAX_CLIENT_HELLO || input == [] then Peeked(answer, buf, 0)
    else if !input[0].Delivers() then Peeked(answer, buf, 1)
    else
      var p := PeekFrom(parse, Capped(buf + input[0].bytes), input[1..]);
      p.(used := p.used + 1)
  }

  lemma PeekOn(parse: Str -> SniResult, buf: Str, input: seq<Read>, used: nat)
    requires used < |input| && parse(buf) == Incomplete && |buf| < MAX_CLIENT_HELLO
    ensures PeekFrom(parse, buf, input[used..])
         == if input[used].Delivers() then
              var p := PeekFrom(parse, Capped(buf + input[used].bytes), input[used + 1..]); p.(used := p.used + 1)
            else Peeked(Incomplete, buf, 1)
  {
    assert input[used..][1..] == input[used + 1..];
  }

  lemma CappedTake(buf: Str, bytes: Str, take: nat)
    requires |buf| <= MAX_CLIENT_HELLO && take == Min(|bytes|, MAX_CLIENT_HELLO - |buf|)
    ensures Capped(buf + bytes) == buf + bytes[..take]
  {
  }

  /** Reads until the SNI is resolved, end of stream, the 8 KiB cap or a failure. Running out of the listed
      reads is the deadline. */
  method PeekSni(input: seq<Read>) returns (host: Option<Str>, buf: Str, used: nat)
    ensures var p := PeekFrom(SniOf, [], input);
            && buf == p.buf && used == p.used
            && host == match p.answer case Found(h) => Some(h) case _ => None
  {
    ghost var p := PeekFrom(SniOf, [], input);
    buf, used := [], 0;
    assert input[0..] == input;
    while true
      invariant used <= |input| && |buf| <= MAX_CLIENT_HELLO
      invariant var q := PeekFrom(SniOf, buf, input[used..]); p == q.(used := used + q.used)
      decreases |input| - used
    {
      var answer := ExtractSni(buf);
      match answer {
        case Found(h) => return Some(h), buf, used;
        case NotPresent => return None, buf, used;
        case Incomplete =>
      }
      if |buf| >= MAX_CLIENT_HELLO || used == |input| {
        return None, buf, used;
      }
      PeekOn(SniOf, buf, input, used);
      var read := input[used];
      used := used + 1;
      if read.Failure? || read.bytes == [] {
        return None, buf, used;
      }
      var take := Min(|read.bytes|, MAX_CLIENT_HELLO - |buf|);
      CappedTake(buf, read.bytes, take);
      buf := buf + read.bytes[..take];
    }
  }

  // ---- The stream is kept ----

  /** The read that ends the peek: end of stream, a failure, or bytes past the cap. */
  lemma LastRead(parse: Str -> SniResult, buf: Str, input: seq<Read>)
    requires parse(buf) == Incomplete && |buf| < MAX_CLIENT_HELLO && input != []
    requires !input[0].Delivers() || |buf| + |input[0].bytes| > MAX_CLIENT_HELLO
    ensures var p := PeekFrom(parse, buf, input);
            p.used == 1 && p.buf == Capped(buf + input[0].Taken())
  {
    if !input[0].Delivers() {
      assert buf + input[0].Taken() == buf;
    }
  }

  lemma ReceivedFirst(input: seq<Read>, k: nat)
    requires 0 < k <= |input|
    ensures Received(input[..k]) == input[0].Taken() + Received(input[1..][..k - 1])
  {
    assert input[..k][1..] == input[1..][..k - 1];
  }

  lemma ReceivedOne(input: seq<Read>)
    requires input != []
    ensures Received(input[..1]) == input[0].Taken()
  {
    ReceivedFirst(input, 1);
    assert input[1..][..0] == [];
  }

  lemma ReceivedAfter(buf: Str, input: seq<Read>, k: nat)
    requires 0 < k <= |input|
    ensures buf + Received(input[..k]) == buf + input[0].Taken() + Received(input[1..][..k - 1])
  {
    ReceivedFirst(input, k);
  }

  lemma {:induction false} KeepsTheCappedPrefix(parse: Str -> SniResult, buf: Str, input: seq<Read>)
    requires |buf| <= MAX_CLIENT_HELLO
    ensures var p := PeekFrom(parse, buf, input);
            p.buf == Capped(buf + Received(input[..p.used]))
    decreases input
  {
    var p := PeekFrom(parse, buf, input);
    if p.used == 0 {
      assert input[..0] == [] && buf + [] == buf;
    } else if !input[0].Delivers() || |buf| + |input[0].bytes| > MAX_CLIENT_HELLO {
      LastRead(parse, buf, input);
      ReceivedOne(input);
    } else {
      KeepsTheCappedPrefix(parse, buf + input[0].bytes, input[1..]);
      ReceivedAfter(buf, input, p.used);
    }
  }

  /** The bytes kept for replay are the first 8192 of those consumed: all of them exactly when the reads
      took no more than that, and otherwise what the crossing read held past the cap is gone. */
  lemma KeepsTheStream(parse: Str -> SniResult, buf: Str, input: seq<Read>)
    requires |buf| <= 8192
    ensures var p := PeekFrom(parse, buf, input);
            && p.used <= |input|
            && var all := buf + Received(input[..p.used]);
               && p.buf == (if |all| <= 8192 then all else all[..8192])
               && (p.buf == all <==> |all| <= 8192)
  {
    KeepsTheCappedPrefix(parse, buf, input);
  }

  // ---- The host is that of the stream ----

  /** The last answer is the parser's on the bytes kept. */
  lemma {:induction false} AnswerIsOfBuffer(parse: Str -> SniResult, buf: Str, input: seq<Read>)
    ensures var p := PeekFrom(parse, buf, input);
            p.answer == parse(p.buf)
    decreases input
  {
    if parse(buf) == Incomplete && |buf| < MAX_CLIENT_HELLO && input != [] && input[0].Delivers() {
      AnswerIsOfBuffer(parse, Capped(buf + input[0].bytes), input[1..]);
    }
  }

  lemma {:induction false} ReceivedGrows(input: seq<Read>, k: nat)
    requires k <= |input|
    ensures Received(input[..k]) <= Received(input)
  {
    if k > 0 {
      ReceivedFirst(input, k);
      ReceivedGrows(input[1..], k - 1);
    }
  }

  /** For every input, cut and ended in any way: a host that the peek answers is the one that the whole stream
      names, however much of it is still to come. */
  lemma PeekedHostIsStreams(stream: Str, input: seq<Read>)
    requires Received(input) <= stream && PeekFrom(SniOf, [], input).answer.Found?
    ensures SniOf(stream) == PeekFrom(SniOf, [], input).answer
  {
    var p := PeekFrom(SniOf, [], input);
    AnswerIsOfBuffer(SniOf, [], input);
    KeepsTheCappedPrefix(SniOf, [], input);
    ReceivedGrows(input, p.used);
    PrefixOfStream(p.buf, Received(input[..p.used]), Received(input), stream);
    FoundIsStable(p.buf, stream[|p.buf|..]);
  }

  lemma PrefixOfStream(buf: Str, taken: Str, received: Str, stream: Str)
    requires buf == Capped([] + taken) && taken <= received <= stream
    ensures buf <= stream && stream == buf + stream[|buf|..]
  {
    assert [] + taken == taken && buf <= taken;
  }

  // ---- The outcome on a stream that starts with a ClientHello ----

  /** The answer on every prefix of such a stream. */
  lemma StreamPrefix(h: Hello, more: Str, n: nat)
    requires h.WellFormed() && n <= |h.Record() + more|
    ensures SniOf((h.Record() + more)[..n]) == Expected(h, n)
  {
    var r := h.Record();
    if n <= |r| {
      EveryPrefixClassified(h, n);
      assert (r + more)[..n] == r[..n];
    } else {
      RecordLayout(h);
      assert (r + more)[..n] == r + more[..n - |r|];
      WholeHelloFound(h, more[..n - |r|]);
    }
  }

  /** How many bytes are buffered after `k` more reads. */
  function Buffered(have: nat, input: seq<Read>, k: nat): nat
    requires k <= |input|
  {
    Min(have + |Received(input[..k])|, MAX_CLIENT_HELLO)
  }

  /** The answers due on prefixes, as a function of the length. */
  ghost predicate CompletedBy(due: nat -> SniResult, have: nat, input: seq<Read>, k: nat)
    requires k <= |input|
  {
    && due(Buffered(have, input, k)).Found?
    && forall j | 0 <= j < k :: due(Buffered(have, input, j)) == Incomplete
  }

  ghost predicate Completes(due: nat -> SniResult, have: nat, input: seq<Read>) {
    exists k :: 0 <= k <= |input| && CompletedBy(due, have, input, k)
  }

  lemma BufferedShift(have: nat, input: seq<Read>, k: nat)
    requires 0 < k <= |input| && have < MAX_CLIENT_HELLO && input[0].Data?
    ensures Buffered(have, input, k) == Buffered(Min(have + |input[0].bytes|, MAX_CLIENT_HELLO), input[1..], k - 1)
  {
    ReceivedFirst(input, k);
  }

  lemma CompletesNow(due: nat -> SniResult, have: nat, input: seq<Read>)
    requires have <= MAX_CLIENT_HELLO && due(have) != Incomplete
    ensures Completes(due, have, input) <==> due(have).Found?
  {
    assert Buffered(have, input, 0) == have;
    assert due(have).Found? ==> CompletedBy(due, have, input, 0);
  }

  lemma CompletesLater(due: nat -> SniResult, have: nat, input: seq<Read>)
    requires have < MAX_CLIENT_HELLO && due(have) == Incomplete && input != [] && input[0].Data?
    ensures Completes(due, have, input)
       <==> Completes(due, Min(have + |input[0].bytes|, MAX_CLIENT_HELLO), input[1..])
  {
    var have', rest := Min(have + |input[0].bytes|, MAX_CLIENT_HELLO), input[1..];
    assert Buffered(have, input, 0) == have;
    forall k: nat | 0 < k <= |input|
      ensures CompletedBy(due, have, input, k) <==> CompletedBy(due, have', rest, k - 1)
    {
      forall j: nat | 0 < j <= k ensures Buffered(have, input, j) == Buffered(have', rest, j - 1) {
        BufferedShift(have, input, j);
      }
      assert forall j: nat :: j < k - 1 ==> Buffered(have', rest, j) == Buffered(have, input, j + 1);
    }
    if k: nat :| k <= |rest| && CompletedBy(due, have', rest, k) {
      assert CompletedBy(due, have, input, k + 1);
    }
  }

  lemma AtTheCap(due: nat -> SniResult, input: seq<Read>)
    requires due(MAX_CLIENT_HELLO) == Incomplete
    ensures !Completes(due, MAX_CLIENT_HELLO, input)
  {
    assert forall k: nat :: k <= |input| ==> Buffered(MAX_CLIENT_HELLO, input, k) == MAX_CLIENT_HELLO;
  }

  lemma PrefixSplit(a: Str, b: Str, s: Str)
    requires a + b <= s
    ensures |a| <= |s| && s[..|a|] == a && b <= s[|a|..]
  {
    assert s[..|a|] == (a + b)[..|a|];
    assert s[|a|..][..|b|] == (a + b)[|a|..];
  }

  /** One read moves the buffer along the stream. */
  lemma BufferAlongStream(stream: Str, have: nat, bytes: Str, rest: Str)
    requires have <= |stream| && bytes + rest <= stream[have..]
    ensures have + |bytes| <= |stream| && stream[..have] + bytes == stream[..have + |bytes|]
    ensures rest <= stream[have + |bytes|..]
  {
    PrefixSplit(bytes, rest, stream[have..]);
    assert stream[have + |bytes|..] == stream[have..][|bytes|..];
  }

  lemma PeekStep(parse: Str -> SniResult, stream: Str, have: nat, input: seq<Read>, all: nat)
    requires have < MAX_CLIENT_HELLO && have <= all <= |stream| && parse(stream[..have]) == Incomplete
    requires input != [] && input[0].Delivers() && stream[..have] + input[0].bytes == stream[..all]
    ensures PeekFrom(parse, stream[..have], input).answer
         == PeekFrom(parse, stream[..Min(all, MAX_CLIENT_HELLO)], input[1..]).answer
  {
    if all > MAX_CLIENT_HELLO {
      assert stream[..all][..MAX_CLIENT_HELLO] == stream[..MAX_CLIENT_HELLO];
    }
  }

  lemma {:induction false} PeekFollowsAnswers(
    parse: Str -> SniResult, due: nat -> SniResult, stream: Str, have: nat, input: seq<Read>)
    requires have <= MAX_CLIENT_HELLO && have <= |stream| && Received(input) <= stream[have..]
    requires forall n: nat | n <= |stream| :: parse(stream[..n]) == due(n)
    requires forall r | r in input :: r.Delivers()
    ensures PeekFrom(parse, stream[..have], input).answer.Found? <==> Completes(due, have, input)
    ensures exists n: nat :: n <= |stream| && PeekFrom(parse, stream[..have], input).answer == due(n)
    decreases input
  {
    assert parse(stream[..have]) == due(have);
    if due(have) != Incomplete {
      CompletesNow(due, have, input);
    } else if have == MAX_CLIENT_HELLO {
      AtTheCap(due, input);
    } else if input == [] {
      assert Buffered(have, input, 0) == have;
    } else {
      assert input[0] in input && forall r | r in input[1..] :: r in input;
      var all := have + |input[0].bytes|;
      BufferAlongStream(stream, have, input[0].bytes, Received(input[1..]));
      PeekStep(parse, stream, have, input, all);
      CompletesLater(due, have, input);
      if all <= MAX_CLIENT_HELLO {
        PeekFollowsAnswers(parse, due, stream, all, input[1..]);
      } else {
        PeekAtCap(parse, due, stream, input[1..]);
      }
    }
  }

  lemma PeekAtCap(parse: Str -> SniResult, due: nat -> SniResult, stream: Str, input: seq<Read>)
    requires |stream| >= MAX_CLIENT_HELLO && parse(stream[..MAX_CLIENT_HELLO]) == due(MAX_CLIENT_HELLO)
    ensures PeekFrom(parse, stream[..MAX_CLIENT_HELLO], input).answer == due(MAX_CLIENT_HELLO)
    ensures due(MAX_CLIENT_HELLO).Found? <==> Completes(due, MAX_CLIENT_HELLO, input)
  {
    if due(MAX_CLIENT_HELLO) == Incomplete {
      AtTheCap(due, input);
    } else {
      CompletesNow(due, MAX_CLIENT_HELLO, input);
    }
  }

  lemma OutcomeOfDelivered(h: Hello, more: Str, input: seq<Read>)
    requires h.WellFormed() && Received(input) <= h.Record() + more && forall r | r in input :: r.Delivers()
    ensures var answer, due := PeekFrom(SniOf, [], input).answer, (n: nat) => Expected(h, n);
            && (answer.Found? ==> answer.host == LowerAll(h.host))
            && (answer.Found? <==> Completes(due, 0, input))
  {
    var stream, due := h.Record() + more, (n: nat) => Expected(h, n);
    forall n: nat | n <= |stream| ensures SniOf(stream[..n]) == due(n) {
      StreamPrefix(h, more, n);
    }
    assert stream[0..] == stream && stream[..0] == [];
    PeekFollowsAnswers(SniOf, due, stream, 0, input);
  }

  /** The reads before the first that fails or finds the end of the stream. */
  function Delivered(input: seq<Read>): (r: seq<Read>)
    ensures forall x | x in r :: x.Delivers()
  {
    if input == [] || !input[0].Delivers() then [] else [input[0]] + Delivered(input[1..])
  }

  /** A failing read ends the peek as the end of the list does. */
  lemma {:induction false} OnlyDelivered(parse: Str -> SniResult, buf: Str, input: seq<Read>)
    ensures PeekFrom(parse, buf, Delivered(input)).answer == PeekFrom(parse, buf, input).answer
    decreases input
  {
    if input != [] && input[0].Delivers() {
      assert Delivered(input)[1..] == Delivered(input[1..]);
      OnlyDelivered(parse, Capped(buf + input[0].bytes), input[1..]);
    }
  }

  /** Exact outcome of a peek over a stream that starts with a ClientHello, for every way of cutting it into
      reads, failing ones included: the answer is that hello's host or none, and it is the host exactly when some
      read completes the server_name extension within the cap before any read ended at one of the "not present"
      cuts, failed, or found the stream at its end. */
  lemma PeekOutcome(h: Hello, more: Str, input: seq<Read>)
    requires h.WellFormed() && Received(Delivered(input)) <= h.Record() + more
    ensures var answer, due := PeekFrom(SniOf, [], input).answer, (n: nat) => Expected(h, n);
            && (answer.Found? ==> Ascii.LowersAll(h.host, answer.host))
            && (answer.Found? <==> Completes(due, 0, Delivered(input)))
  {
    LowerAllIs(h.host);
    OnlyDelivered(SniOf, [], input);
    OutcomeOfDelivered(h, more, Delivered(input));
  }
}
