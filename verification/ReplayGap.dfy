/** A stream on which the SNI peek loses bytes: its cap falls inside a read. */
module ReplayGap {
  import opened Bytes
  import opened Numbers
  import opened Sni
  import opened ClientHello
  import opened Peek
  import Utf8

  /** The size of the read buffer. */
  const READ_SIZE := 4096

  lemma PeekCons(parse: Str -> SniResult, buf: Str, r: Read, rest: seq<Read>)
    requires parse(buf) == Incomplete && |buf| < MAX_CLIENT_HELLO && r.Delivers()
    requires |buf| + |r.bytes| <= MAX_CLIENT_HELLO
    ensures var p := PeekFrom(parse, buf + r.bytes, rest);
            PeekFrom(parse, buf, [r] + rest) == p.(used := p.used + 1)
  {
    assert ([r] + rest)[0] == r && ([r] + rest)[1..] == rest;
  }

  lemma PeekLast(parse: Str -> SniResult, buf: Str, bytes: Str)
    requires parse(buf) == Incomplete && |buf| < MAX_CLIENT_HELLO < |buf| + |bytes|
    ensures var p := PeekFrom(parse, buf, [Data(bytes)] + []);
            p.used == 1 && p.buf == (buf + bytes)[..MAX_CLIENT_HELLO]
  {
    assert [Data(bytes)] + [] == [Data(bytes)];
    LastRead(parse, buf, [Data(bytes)]);
  }

  /** Three reads of a stream, cut at `i`, `j` and `k`. */
  function ThreeReads(stream: Str, i: nat, j: nat, k: nat): seq<Read>
    requires i <= j <= k <= |stream|
  {
    [Data(stream[..i])] + ([Data(stream[i..j])] + ([Data(stream[j..k])] + []))
  }

  /** While the answer is still open at the first two cuts and the cap falls into the third read: what that read
      held past the cap is consumed and not kept. */
  lemma CapInsideRead(parse: Str -> SniResult, stream: Str, i: nat, j: nat, k: nat)
    requires 0 < i < j < MAX_CLIENT_HELLO < k <= |stream|
    requires parse([]) == Incomplete && parse(stream[..i]) == Incomplete && parse(stream[..j]) == Incomplete
    ensures var p := PeekFrom(parse, [], ThreeReads(stream, i, j, k));
            p.used == 3 && p.buf == stream[..MAX_CLIENT_HELLO]
    ensures Received(ThreeReads(stream, i, j, k)) == stream[..k]
  {
    var a, b, c := Data(stream[..i]), Data(stream[i..j]), Data(stream[j..k]);
    assert [] + stream[..i] == stream[..i] && stream[..i] + stream[i..j] == stream[..j];
    assert (stream[..j] + stream[j..k])[..MAX_CLIENT_HELLO] == stream[..MAX_CLIENT_HELLO];
    PeekLast(parse, stream[..j], stream[j..k]);
    PeekCons(parse, stream[..i], b, [c] + []);
    PeekCons(parse, [], a, [b] + ([c] + []));
    ThreeReceived(stream, i, j, k);
  }

  lemma ReceivedCons(r: Read, rest: seq<Read>)
    ensures Received([r] + rest) == r.Taken() + Received(rest)
  {
    assert ([r] + rest)[1..] == rest;
  }

  lemma ThreeReceived(stream: Str, i: nat, j: nat, k: nat)
    requires i <= j <= k <= |stream|
    ensures Received(ThreeReads(stream, i, j, k)) == stream[..k]
  {
    var a, b, c := Data(stream[..i]), Data(stream[i..j]), Data(stream[j..k]);
    ReceivedCons(c, []);
    ReceivedCons(b, [c] + []);
    ReceivedCons(a, [b] + ([c] + []));
    assert stream[j..k] + [] == stream[j..k];
    Joined(stream, i, j, k);
    Joined(stream, 0, i, k);
    assert stream[0..i] == stream[..i] && stream[0..k] == stream[..k];
  }

  lemma Joined(stream: Str, i: nat, j: nat, k: nat)
    requires i <= j <= k <= |stream|
    ensures stream[i..j] + stream[j..k] == stream[i..k]
  {
  }

  // ---- A hello that does it ----

  /** A padding extension (RFC 7685) before the server name. */
  function PaddedHello(padding: Str): Hello {
    Hello(1, [3, 3], seq(32, _ => 0), [], [], [], [Extension(21, padding)], [], [0x61], [], [])
  }

  lemma PaddedLayout(padding: Str, h: Hello)
    requires |padding| <= 16000 && h == PaddedHello(padding)
    ensures h.WellFormed() && h.CompressionEnd() == 47
    ensures ExtsBytes(h.before) == h.before[0].Bytes() && |ExtsBytes(h.before)| == 4 + |padding|
    ensures |h.ExtensionBytes()| == |padding| + 14
  {
    assert h.before[1..] == [] && h.before[0].Bytes() + [] == h.before[0].Bytes();
    assert Utf8.IsUtf8(h.host);
    assert |h.NameList()| == 4;
  }

  /** No answer inside the padding. */
  lemma OpenInPadding(padding: Str, h: Hello, n: nat)
    requires |padding| <= 16000 && h == PaddedHello(padding)
    requires n < 43 || 53 <= n < 53 + |padding|
    ensures h.WellFormed() && Expected(h, n) == Incomplete
  {
    PaddedLayout(padding, h);
    assert h.before[1..] == [];
    assert !InHeader([], 53 + |padding|, n);
  }

  lemma AnswerInPadding(h: Hello, padding: Str, n: nat)
    requires |padding| <= 16000 && h == PaddedHello(padding)
    requires n == 0 || 53 <= n < 53 + |padding|
    ensures h.WellFormed() && n <= |h.Record()| && SniOf(h.Record()[..n]) == Incomplete
  {
    PaddedLayout(padding, h);
    RecordLayout(h);
    OpenInPadding(padding, h, n);
    EveryPrefixClassified(h, n);
  }

  lemma ReadsFit(stream: Str, i: nat, j: nat, k: nat)
    requires 0 < i < j < k <= |stream| && i <= READ_SIZE && j - i <= READ_SIZE && k - j <= READ_SIZE
    ensures forall r | r in ThreeReads(stream, i, j, k) :: r.Delivers() && |r.bytes| <= READ_SIZE
    ensures |ThreeReads(stream, i, j, k)| == 3
  {
  }

  /** Three ordinary reads, none larger than the read buffer, and the upstream is sent fewer bytes than were read. */
  ghost predicate Cut(stream: Str, input: seq<Read>) {
    && (forall r | r in input :: r.Delivers() && |r.bytes| <= 4096)
    && PeekFrom(SniOf, [], input).used == |input|
    && PeekFrom(SniOf, [], input).buf < Received(input) <= stream
  }

  lemma CutInPadding(padding: Str, h: Hello, r: Str, i: nat, j: nat, k: nat)
    requires |padding| <= 16000 && h == PaddedHello(padding) && h.WellFormed() && r == h.Record()
    requires 53 <= i < j < 53 + |padding| && j < MAX_CLIENT_HELLO < k <= |r|
    requires i <= READ_SIZE && j - i <= READ_SIZE && k - j <= READ_SIZE
    ensures Cut(r, ThreeReads(r, i, j, k))
  {
    AnswerInPadding(h, padding, 0);
    AnswerInPadding(h, padding, i);
    AnswerInPadding(h, padding, j);
    assert r[..0] == [];
    CapInsideRead(SniOf, r, i, j, k);
    ReadsFit(r, i, j, k);
  }

  /** So there are such hellos, well formed and of ordinary length. */
  lemma PaddedHelloIsCut(padding: Str)
    requires 12000 <= |padding| <= 16000
    ensures PaddedHello(padding).WellFormed() && |PaddedHello(padding).Record()| >= 12000
    ensures Cut(PaddedHello(padding).Record(), ThreeReads(PaddedHello(padding).Record(), 4000, 8000, 12000))
  {
    var h := PaddedHello(padding);
    PaddedLayout(padding, h);
    RecordLayout(h);
    CutInPadding(padding, h, h.Record(), 4000, 8000, 12000);
  }
}
