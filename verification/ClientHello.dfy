/** Well-formed single-record ClientHello messages that carry a host name, and exactly what the SNI
    parser answers on every prefix of one. */
module ClientHello {
  import opened Wrappers
  import opened Bytes
  import opened Sni
  import Ascii
  import Utf8

  function U16(n: nat): (r: Str)
    requires n < 0x1_0000
    ensures |r| == 2
  {
    [n / 0x100, n % 0x100]
  }

  function U24(n: nat): (r: Str)
    requires n < 0x100_0000
    ensures |r| == 3
  {
    [n / 0x1_0000, n / 0x100 % 0x100, n % 0x100]
  }

  function Vec8(s: Str): Str
    requires |s| < 0x100
  {
    [|s|] + s
  }

  function Vec16(s: Str): Str
    requires |s| < 0x1_0000
  {
    U16(|s|) + s
  }

  datatype Extension = Extension(kind: nat, body: Str) {
    predicate Sized() { kind < 0x1_0000 && |body| < 0x1_0000 }

    function Bytes(): (r: Str)
      requires Sized()
      ensures |r| == 4 + |body|
    {
      U16(kind) + Vec16(body)
    }
  }

  datatype ServerName = ServerName(kind: Byte, name: Str) {
    predicate Sized() { |name| < 0x1_0000 }

    function Bytes(): (r: Str)
      requires Sized()
      ensures |r| == 3 + |name|
    {
      [kind] + Vec16(name)
    }
  }

  predicate SizedExts(es: seq<Extension>) { forall e | e in es :: e.Sized() }

  predicate OtherExtensions(es: seq<Extension>) { forall e | e in es :: e.kind != 0 }

  predicate OtherKinds(ns: seq<ServerName>) { forall n | n in ns :: n.kind != 0 }

  predicate SizedNames(ns: seq<ServerName>) { forall n | n in ns :: n.Sized() }

  function ExtsBytes(es: seq<Extension>): Str
    requires SizedExts(es)
  {
    if es == [] then [] else es[0].Bytes() + ExtsBytes(es[1..])
  }

  function NamesBytes(ns: seq<ServerName>): Str
    requires SizedNames(ns)
  {
    if ns == [] then [] else ns[0].Bytes() + NamesBytes(ns[1..])
  }

  /** The fields of a ClientHello; `namesBefore`, `host`, `namesAfter` make up its server name list and
      `before`, `after` are the extensions around the server_name extension. */
  datatype Hello = Hello(
    recordMinor: Byte,
    version: Str,
    random: Str,
    sessionId: Str,
    cipherSuites: Str,
    compression: Str,
    before: seq<Extension>,
    namesBefore: seq<ServerName>,
    host: Str,
    namesAfter: seq<ServerName>,
    after: seq<Extension>)
  {
    predicate NamesOk() {
      && |host| < 0x1_0000 && SizedNames(namesBefore) && SizedNames(namesAfter)
      && OtherKinds(namesBefore)
      && host != [] && Utf8.IsUtf8(host)
    }

    function NameList(): Str
      requires NamesOk()
    {
      NamesBytes(namesBefore) + ServerName(0, host).Bytes() + NamesBytes(namesAfter)
    }

    /** The server_name extension. */
    function SniExtension(): Extension
      requires NamesOk() && |NameList()| < 0x1_0000
    {
      Extension(0, Vec16(NameList()))
    }

    predicate ExtensionsOk() {
      && NamesOk() && |NameList()| + 2 < 0x1_0000
      && SizedExts(before) && SizedExts(after)
      && OtherExtensions(before)
      && |ExtsBytes(before)| + 4 + |SniExtension().body| + |ExtsBytes(after)| < 0x1_0000
    }

    function ExtensionBytes(): Str
      requires ExtensionsOk()
    {
      ExtsBytes(before) + SniExtension().Bytes() + ExtsBytes(after)
    }

    predicate FieldsOk() {
      && |version| == 2 && |random| == 32 && |sessionId| < 0x100
      && |cipherSuites| < 0x1_0000 && |compression| < 0x100
    }

    /** Everything before the extensions block. */
    function Head(): Str
      requires FieldsOk()
    {
      version + random + Vec8(sessionId) + Vec16(cipherSuites) + Vec8(compression)
    }

    predicate WellFormed() {
      FieldsOk() && ExtensionsOk() && 4 + |Head()| + 2 + |ExtensionBytes()| <= MAX_RECORD_LEN
    }

    function Body(): Str
      requires WellFormed()
    {
      Head() + Vec16(ExtensionBytes())
    }

    /** The TLS record: a 5-byte record header, a 4-byte handshake header, the body. */
    function Record(): Str
      requires WellFormed()
    {
      [0x16, 0x03, recordMinor] + U16(4 + |Body()|) + [0x01] + U24(|Body()|) + Body()
    }

    /** Where the compression methods end. */
    function CompressionEnd(): nat
      requires FieldsOk()
    {
      9 + |Head()|
    }

    /** Where the server_name extension ends. */
    function FoundEnd(): nat
      requires FieldsOk() && ExtensionsOk()
    {
      CompressionEnd() + 2 + |ExtsBytes(before)| + 4 + |SniExtension().body|
    }
  }

  /** A cut 0 to 3 bytes into the header of one of these extensions, or of the one that follows them; the
      first header starts at `p`. */
  predicate InHeader(es: seq<Extension>, p: nat, n: nat) {
    p <= n <= p + 3 || (es != [] && InHeader(es[1..], p + 4 + |es[0].body|, n))
  }

  /** The answer due after `n` bytes of the record. */
  function Expected(h: Hello, n: nat): SniResult
    requires h.WellFormed()
  {
    if n >= h.FoundEnd() then Found(LowerAll(h.host))
    else if n == h.CompressionEnd() || InHeader(h.before, h.CompressionEnd() + 2, n) then NotPresent
    else Incomplete
  }

  // ---- Reading encoded pieces out of a buffer ----

  /** `piece` stands at offset `p` of `s`. */
  ghost predicate Holds(s: Str, p: nat, piece: Str) {
    p + |piece| <= |s| && s[p..p + |piece|] == piece
  }

  lemma HoldsSplit(s: Str, p: nat, a: Str, b: Str)
    requires Holds(s, p, a + b)
    ensures Holds(s, p, a) && Holds(s, p + |a|, b)
  {
    assert s[p..p + |a|] == (a + b)[..|a|] == a;
    assert s[p + |a|..p + |a| + |b|] == (a + b)[|a|..] == b;
  }

  lemma HoldsPrefix(s: Str, n: nat, p: nat, piece: Str)
    requires Holds(s, p, piece) && p + |piece| <= n <= |s|
    ensures Holds(s[..n], p, piece)
  {
    assert s[..n][p..p + |piece|] == s[p..p + |piece|];
  }

  lemma ReadU16(s: Str, p: nat, v: nat)
    requires v < 0x1_0000 && Holds(s, p, U16(v))
    ensures Be16(s, p) == Some(v)
  {
    assert s[p] == s[p..p + 2][0] && s[p + 1] == s[p..p + 2][1];
  }

  lemma ReadU24(s: Str, p: nat, v: nat)
    requires v < 0x100_0000 && Holds(s, p, U24(v))
    ensures Be24(s, p) == Some(v)
  {
    assert s[p] == s[p..p + 3][0] && s[p + 1] == s[p..p + 3][1] && s[p + 2] == s[p..p + 3][2];
    assert v == v / 0x1_0000 * 0x1_0000 + v / 0x100 % 0x100 * 0x100 + v % 0x100 by {
      assert v / 0x1_0000 == v / 0x100 / 0x100;
    }
  }

  lemma ReadVec8(s: Str, p: nat, body: Str, ceiling: nat)
    requires |body| < 0x100 && Holds(s, p, Vec8(body)) && ceiling <= |s|
    ensures SkipVec(s, p, 1, ceiling) == if p + 1 + |body| <= ceiling then Some(p + 1 + |body|) else None
  {
    HoldsSplit(s, p, [|body|], body);
    assert s[p] == s[p..p + 1][0];
  }

  lemma ReadVec16(s: Str, p: nat, body: Str, ceiling: nat)
    requires |body| < 0x1_0000 && Holds(s, p, Vec16(body)) && ceiling <= |s|
    ensures SkipVec(s, p, 2, ceiling) == if p + 2 + |body| <= ceiling then Some(p + 2 + |body|) else None
  {
    HoldsSplit(s, p, U16(|body|), body);
    ReadU16(s, p, |body|);
  }

  // ---- The server name list ----

  lemma EntryFields(buf: Str, q: nat, n: ServerName)
    requires n.Sized() && Holds(buf, q, n.Bytes())
    ensures buf[q] == n.kind && Be16(buf, q + 1) == Some(|n.name|) && buf[q + 3..q + 3 + |n.name|] == n.name
  {
    HoldsSplit(buf, q, [n.kind], Vec16(n.name));
    HoldsSplit(buf, q + 1, U16(|n.name|), n.name);
    ReadU16(buf, q + 1, |n.name|);
    assert buf[q] == buf[q..q + 1][0];
  }

  /** One entry of the list. */
  lemma ScanNameOne(answer: Str -> SniResult, buf: Str, q: nat, n: ServerName, listEnd: nat)
    requires n.Sized() && Holds(buf, q, n.Bytes()) && q + 3 + |n.name| <= listEnd <= |buf|
    ensures ScanList(answer, buf, q, listEnd)
         == if n.kind != 0 then ScanList(answer, buf, q + 3 + |n.name|, listEnd) else answer(n.name)
  {
    EntryFields(buf, q, n);
  }

  lemma HoldsPieces(s: Str, p: nat, whole: Str, a: Str, b: Str, tail: Str)
    requires whole == a + b && Holds(s, p, whole + tail)
    ensures Holds(s, p, a) && Holds(s, p + |a|, b + tail)
  {
    assert whole + tail == a + (b + tail);
    HoldsSplit(s, p, a, b + tail);
  }

  lemma NamesBytesCons(ns: seq<ServerName>)
    requires ns != [] && SizedNames(ns)
    ensures ns[0].Sized() && SizedNames(ns[1..]) && NamesBytes(ns) == ns[0].Bytes() + NamesBytes(ns[1..])
  {
    assert ns[0] in ns;
  }

  lemma FirstName(buf: Str, q: nat, ns: seq<ServerName>, tail: Str)
    requires ns != [] && SizedNames(ns) && Holds(buf, q, NamesBytes(ns) + tail)
    ensures ns[0].Sized() && SizedNames(ns[1..])
    ensures |NamesBytes(ns)| == 3 + |ns[0].name| + |NamesBytes(ns[1..])|
    ensures Holds(buf, q, ns[0].Bytes()) && Holds(buf, q + 3 + |ns[0].name|, NamesBytes(ns[1..]) + tail)
  {
    NamesBytesCons(ns);
    HoldsPieces(buf, q, NamesBytes(ns), ns[0].Bytes(), NamesBytes(ns[1..]), tail);
  }

  /** A scan that passes over the entries from `q` to `end` one by one. */
  ghost predicate PassesNames(scan: nat -> SniResult, q: nat, ns: seq<ServerName>, end: nat)
    decreases ns
  {
    if ns == [] then q == end
    else
      var next := q + 3 + |ns[0].name|;
      scan(q) == scan(next) && PassesNames(scan, next, ns[1..], end)
  }

  lemma {:induction false} PassedNames(scan: nat -> SniResult, q: nat, ns: seq<ServerName>, end: nat)
    requires PassesNames(scan, q, ns, end)
    ensures scan(q) == scan(end)
    decreases ns
  {
    if ns != [] {
      PassedNames(scan, q + 3 + |ns[0].name|, ns[1..], end);
    }
  }

  function NameScan(answer: Str -> SniResult, buf: Str, listEnd: nat): nat -> SniResult
    requires listEnd <= |buf|
  {
    (q: nat) => ScanList(answer, buf, q, listEnd)
  }

  /** A scan that passes over every entry of another kind. */
  ghost predicate SkipsOthers(scan: nat -> SniResult, buf: Str, listEnd: nat) {
    forall q: nat, n: ServerName {:trigger Holds(buf, q, n.Bytes())}
      | n.Sized() && n.kind != 0 && Holds(buf, q, n.Bytes()) && q + 3 + |n.name| <= listEnd ::
        scan(q) == scan(q + 3 + |n.name|)
  }

  lemma NameScanSkip(answer: Str -> SniResult, buf: Str, q: nat, n: ServerName, listEnd: nat)
    requires n.Sized() && n.kind != 0 && Holds(buf, q, n.Bytes()) && q + 3 + |n.name| <= listEnd <= |buf|
    ensures var scan := NameScan(answer, buf, listEnd);
            scan(q) == scan(q + 3 + |n.name|)
  {
    ScanNameOne(answer, buf, q, n, listEnd);
  }

  lemma NameScanSkips(answer: Str -> SniResult, buf: Str, listEnd: nat)
    requires listEnd <= |buf|
    ensures SkipsOthers(NameScan(answer, buf, listEnd), buf, listEnd)
  {
    var scan := NameScan(answer, buf, listEnd);
    forall q: nat, n: ServerName {:trigger Holds(buf, q, n.Bytes())}
      | n.Sized() && n.kind != 0 && Holds(buf, q, n.Bytes()) && q + 3 + |n.name| <= listEnd
      ensures scan(q) == scan(q + 3 + |n.name|)
    {
      NameScanSkip(answer, buf, q, n, listEnd);
    }
  }

  lemma NameSkipped(scan: nat -> SniResult, buf: Str, q: nat, n: ServerName, listEnd: nat)
    requires SkipsOthers(scan, buf, listEnd) && n.Sized() && n.kind != 0
    requires Holds(buf, q, n.Bytes()) && q + 3 + |n.name| <= listEnd
    ensures scan(q) == scan(q + 3 + |n.name|)
  {
  }

  lemma OtherKindsTail(ns: seq<ServerName>)
    requires OtherKinds(ns) && ns != []
    ensures ns[0].kind != 0 && OtherKinds(ns[1..])
  {
    assert ns[0] in ns;
  }

  lemma {:induction false} OtherNamesPass(
    scan: nat -> SniResult, buf: Str, q: nat, ns: seq<ServerName>, tail: Str, end: nat, listEnd: nat)
    requires SizedNames(ns) && OtherKinds(ns) && SkipsOthers(scan, buf, listEnd)
    requires Holds(buf, q, NamesBytes(ns) + tail) && end == q + |NamesBytes(ns)| <= listEnd
    ensures PassesNames(scan, q, ns, end)
    decreases ns
  {
    if ns != [] {
      var next := q + 3 + |ns[0].name|;
      OtherKindsTail(ns);
      FirstName(buf, q, ns, tail);
      NameSkipped(scan, buf, q, ns[0], listEnd);
      OtherNamesPass(scan, buf, next, ns[1..], tail, end, listEnd);
    }
  }

  lemma NamesPassed(
    scan: nat -> SniResult, buf: Str, q: nat, ns: seq<ServerName>, tail: Str, end: nat, listEnd: nat)
    requires SizedNames(ns) && OtherKinds(ns) && SkipsOthers(scan, buf, listEnd)
    requires Holds(buf, q, NamesBytes(ns) + tail) && end == q + |NamesBytes(ns)| <= listEnd
    ensures scan(q) == scan(end)
  {
    OtherNamesPass(scan, buf, q, ns, tail, end, listEnd);
    PassedNames(scan, q, ns, end);
  }

  lemma ListOf(buf: Str, start: nat, names: Str)
    requires |names| < 0x1_0000 && Holds(buf, start, Vec16(names))
    ensures ServerNameOf(buf, start, start + 2 + |names|) == ScanNames(buf, start + 2, start + 2 + |names|)
    ensures Holds(buf, start + 2, names)
  {
    HoldsSplit(buf, start, U16(|names|), names);
    ReadU16(buf, start, |names|);
  }

  lemma HoldsMiddle(s: Str, p: nat, a: Str, b: Str, c: Str)
    requires Holds(s, p, a + (b + c))
    ensures Holds(s, p + |a|, b)
  {
    HoldsSplit(s, p, a, b + c);
    HoldsSplit(s, p + |a|, b, c);
  }

  lemma ListFinds(
    answer: Str -> SniResult, buf: Str, q: nat, before: seq<ServerName>, host: ServerName, tail: Str, listEnd: nat)
    requires SizedNames(before) && host.Sized() && OtherKinds(before)
    requires host.kind == 0
    requires Holds(buf, q, NamesBytes(before) + tail) && Holds(buf, q + |NamesBytes(before)|, host.Bytes())
    requires q + |NamesBytes(before)| + 3 + |host.name| <= listEnd <= |buf|
    ensures ScanList(answer, buf, q, listEnd) == answer(host.name)
  {
    var end := q + |NamesBytes(before)|;
    ScanNameOne(answer, buf, end, host, listEnd);
    NameScanSkips(answer, buf, listEnd);
    NamesPassed(NameScan(answer, buf, listEnd), buf, q, before, tail, end, listEnd);
  }

  lemma NamesFind(
    answer: Str -> SniResult, buf: Str, q: nat, before: seq<ServerName>, host: ServerName, rest: Str, names: Str)
    requires SizedNames(before) && host.Sized() && OtherKinds(before)
    requires host.kind == 0 && names == NamesBytes(before) + (host.Bytes() + rest) && Holds(buf, q, names)
    ensures ScanList(answer, buf, q, q + |names|) == answer(host.name)
  {
    HoldsMiddle(buf, q, NamesBytes(before), host.Bytes(), rest);
    ListFinds(answer, buf, q, before, host, host.Bytes() + rest, q + |names|);
  }

  lemma ServerNameFinds(buf: Str, start: nat, h: Hello)
    requires h.ExtensionsOk() && Holds(buf, start, h.SniExtension().body)
    ensures ServerNameOf(buf, start, start + |h.SniExtension().body|) == Found(LowerAll(h.host))
  {
    NameListFinds(buf, start, h, h.NameList());
  }

  lemma NameListFinds(buf: Str, start: nat, h: Hello, names: Str)
    requires h.NamesOk() && names == h.NameList() && |names| < 0x1_0000 && Holds(buf, start, Vec16(names))
    ensures ServerNameOf(buf, start, start + 2 + |names|) == Found(LowerAll(h.host))
  {
    NameListPieces(h);
    ListOf(buf, start, names);
    NamesFind(HostAnswer, buf, start + 2, h.namesBefore, ServerName(0, h.host), NamesBytes(h.namesAfter), names);
  }

  lemma NameListPieces(h: Hello)
    requires h.NamesOk()
    ensures h.NameList() == NamesBytes(h.namesBefore) + (ServerName(0, h.host).Bytes() + NamesBytes(h.namesAfter))
  {
  }

  // ---- The extensions, on every prefix ----

  lemma ExtensionFields(s: Str, p: nat, e: Extension)
    requires e.Sized() && Holds(s, p, e.Bytes())
    ensures Be16(s, p) == Some(e.kind) && Be16(s, p + 2) == Some(|e.body|) && Holds(s, p + 4, e.body)
  {
    HoldsSplit(s, p, U16(e.kind), Vec16(e.body));
    HoldsSplit(s, p + 2, U16(|e.body|), e.body);
    ReadU16(s, p, e.kind);
    ReadU16(s, p + 2, |e.body|);
  }

  /** Reading at an offset does not change when the buffer is cut behind it. */
  lemma Be16Cut(s: Str, p: nat, n: nat)
    requires p + 2 <= n <= |s|
    ensures Be16(s[..n], p) == Be16(s, p)
  {
  }

  lemma {:induction false} NoHeaderBefore(es: seq<Extension>, p: nat, n: nat)
    requires n < p
    ensures !InHeader(es, p, n)
  {
    if es != [] {
      NoHeaderBefore(es[1..], p + 4 + |es[0].body|, n);
    }
  }

  /** One extension of a cut buffer. */
  lemma ScanOne(r: Str, n: nat, p: nat, e: Extension)
    requires e.Sized() && Holds(r, p, e.Bytes()) && p <= n <= |r|
    ensures var buf, bodyEnd := r[..n], p + 4 + |e.body|;
            ScanExtensions(buf, p, n) ==
              if n < p + 4 then NotPresent
              else if n < bodyEnd then Incomplete
              else if e.kind == 0 then ServerNameOf(buf, p + 4, bodyEnd)
              else ScanExtensions(buf, bodyEnd, n)
  {
    ExtensionFields(r, p, e);
    if n >= p + 4 {
      Be16Cut(r, p, n);
      Be16Cut(r, p + 2, n);
    }
  }

  /** The answer due after `n` bytes, the header of `es[0]` (or of server_name, when there is none) at `p`. */
  function CutAnswer(es: seq<Extension>, p: nat, n: nat, sniLen: nat, found: SniResult): SniResult
    requires SizedExts(es)
  {
    if n >= p + |ExtsBytes(es)| + 4 + sniLen then found
    else if InHeader(es, p, n) then NotPresent
    else Incomplete
  }

  lemma ScanCutAtSni(r: Str, n: nat, p: nat, h: Hello)
    requires h.ExtensionsOk() && Holds(r, p, h.SniExtension().Bytes()) && p <= n <= |r|
    ensures ScanExtensions(r[..n], p, n) == CutAnswer([], p, n, |h.SniExtension().body|, Found(LowerAll(h.host)))
  {
    var sni := h.SniExtension();
    ScanOne(r, n, p, sni);
    ExtensionFields(r, p, sni);
    if n >= p + 4 + |sni.body| {
      HoldsPrefix(r, n, p + 4, sni.body);
      ServerNameFinds(r[..n], p + 4, h);
    }
  }

  lemma CutAnswerStep(es: seq<Extension>, p: nat, n: nat, sniLen: nat, found: SniResult)
    requires es != [] && SizedExts(es) && p <= n
    ensures SizedExts(es[1..])
    ensures var bodyEnd := p + 4 + |es[0].body|;
            CutAnswer(es, p, n, sniLen, found) ==
              if n < p + 4 then NotPresent
              else if n < bodyEnd then Incomplete
              else CutAnswer(es[1..], bodyEnd, n, sniLen, found)
  {
    assert es[0] in es;
    var bodyEnd := p + 4 + |es[0].body|;
    if n < bodyEnd {
      NoHeaderBefore(es[1..], bodyEnd, n);
    }
  }

  lemma ExtsBytesCons(es: seq<Extension>)
    requires es != [] && SizedExts(es)
    ensures es[0].Sized() && SizedExts(es[1..]) && ExtsBytes(es) == es[0].Bytes() + ExtsBytes(es[1..])
  {
    assert es[0] in es;
  }

  lemma FirstExtension(r: Str, p: nat, es: seq<Extension>, tail: Str)
    requires es != [] && SizedExts(es) && Holds(r, p, ExtsBytes(es) + tail)
    ensures es[0].Sized() && SizedExts(es[1..])
    ensures |ExtsBytes(es)| == 4 + |es[0].body| + |ExtsBytes(es[1..])|
    ensures Holds(r, p, es[0].Bytes()) && Holds(r, p + 4 + |es[0].body|, ExtsBytes(es[1..]) + tail)
  {
    ExtsBytesCons(es);
    HoldsPieces(r, p, ExtsBytes(es), es[0].Bytes(), ExtsBytes(es[1..]), tail);
  }

  /** A scan of `n` bytes that passes over the extensions from `p` to `end` one by one, as far as they have
      arrived. */
  ghost predicate PassesExtensions(scan: nat -> SniResult, n: nat, p: nat, es: seq<Extension>, end: nat)
    decreases es
  {
    if es == [] then p == end
    else
      var bodyEnd := p + 4 + |es[0].body|;
      && (p <= n ==> scan(p) == if n < p + 4 then NotPresent else if n < bodyEnd then Incomplete else scan(bodyEnd))
      && PassesExtensions(scan, n, bodyEnd, es[1..], end)
  }

  function ExtensionScan(r: Str, n: nat): nat -> SniResult
    requires n <= |r|
  {
    (p: nat) => ScanExtensions(r[..n], p, n)
  }

  /** A scan that passes over every extension of another kind, as far as it has arrived. */
  ghost predicate SkipsExtensions(scan: nat -> SniResult, r: Str, n: nat) {
    forall p: nat, e: Extension {:trigger Holds(r, p, e.Bytes())}
      | e.Sized() && e.kind != 0 && Holds(r, p, e.Bytes()) && p <= n ::
        var bodyEnd := p + 4 + |e.body|;
        scan(p) == if n < p + 4 then NotPresent else if n < bodyEnd then Incomplete else scan(bodyEnd)
  }

  lemma ExtensionSkipped(r: Str, n: nat, p: nat, e: Extension)
    requires e.Sized() && e.kind != 0 && Holds(r, p, e.Bytes()) && p <= n <= |r|
    ensures var scan, bodyEnd := ExtensionScan(r, n), p + 4 + |e.body|;
            scan(p) == if n < p + 4 then NotPresent else if n < bodyEnd then Incomplete else scan(bodyEnd)
  {
    ScanOne(r, n, p, e);
  }

  lemma ExtensionScanSkips(r: Str, n: nat)
    requires n <= |r|
    ensures SkipsExtensions(ExtensionScan(r, n), r, n)
  {
    var scan := ExtensionScan(r, n);
    forall p: nat, e: Extension {:trigger Holds(r, p, e.Bytes())}
      | e.Sized() && e.kind != 0 && Holds(r, p, e.Bytes()) && p <= n
      ensures var bodyEnd := p + 4 + |e.body|;
              scan(p) == if n < p + 4 then NotPresent else if n < bodyEnd then Incomplete else scan(bodyEnd)
    {
      ExtensionSkipped(r, n, p, e);
    }
  }

  lemma OtherExtensionsTail(es: seq<Extension>)
    requires OtherExtensions(es) && es != []
    ensures es[0].kind != 0 && OtherExtensions(es[1..])
  {
    assert es[0] in es;
  }

  lemma SkippedAt(scan: nat -> SniResult, r: Str, n: nat, p: nat, e: Extension, bodyEnd: nat)
    requires SkipsExtensions(scan, r, n) && e.Sized() && e.kind != 0 && Holds(r, p, e.Bytes())
    requires bodyEnd == p + 4 + |e.body|
    ensures p <= n ==>
              scan(p) == if n < p + 4 then NotPresent else if n < bodyEnd then Incomplete else scan(bodyEnd)
  {
  }

  lemma {:induction false} OtherExtensionsPass(
    scan: nat -> SniResult, r: Str, n: nat, p: nat, es: seq<Extension>, tail: Str, end: nat)
    requires SizedExts(es) && OtherExtensions(es) && SkipsExtensions(scan, r, n)
    requires Holds(r, p, ExtsBytes(es) + tail) && end == p + |ExtsBytes(es)|
    ensures PassesExtensions(scan, n, p, es, end)
    decreases es
  {
    if es != [] {
      var bodyEnd := p + 4 + |es[0].body|;
      OtherExtensionsTail(es);
      FirstExtension(r, p, es, tail);
      SkippedAt(scan, r, n, p, es[0], bodyEnd);
      OtherExtensionsPass(scan, r, n, bodyEnd, es[1..], tail, end);
    }
  }

  /** The scan over the extensions before server_name, given what happens from there on. */
  lemma {:induction false} ScanCut(
    scan: nat -> SniResult, n: nat, p: nat, es: seq<Extension>, end: nat, sniLen: nat, found: SniResult)
    requires SizedExts(es) && PassesExtensions(scan, n, p, es, end) && p <= n
    requires end <= n ==> scan(end) == CutAnswer([], end, n, sniLen, found)
    ensures scan(p) == CutAnswer(es, p, n, sniLen, found)
    decreases es
  {
    if es != [] {
      CutAnswerStep(es, p, n, sniLen, found);
      if n >= p + 4 + |es[0].body| {
        ScanCut(scan, n, p + 4 + |es[0].body|, es[1..], end, sniLen, found);
      }
    }
  }

  lemma ExtensionsScan(
    scan: nat -> SniResult, r: Str, n: nat, p: nat, es: seq<Extension>, tail: Str, end: nat, sniLen: nat,
    found: SniResult)
    requires p <= n <= |r| && scan == ExtensionScan(r, n)
    requires SizedExts(es) && OtherExtensions(es)
    requires Holds(r, p, ExtsBytes(es) + tail) && end == p + |ExtsBytes(es)|
    requires end <= n ==> scan(end) == CutAnswer([], end, n, sniLen, found)
    ensures scan(p) == CutAnswer(es, p, n, sniLen, found)
  {
    ExtensionScanSkips(r, n);
    OtherExtensionsPass(scan, r, n, p, es, tail, end);
    ScanCut(scan, n, p, es, end, sniLen, found);
  }

  // ---- The fixed part of the message ----

  lemma SkipVecCut(s: Str, p: nat, lenBytes: nat, e: nat, n: nat)
    requires lenBytes in {1, 2} && SkipVec(s, p, lenBytes, |s|) == Some(e) && n <= |s|
    ensures SkipVec(s[..n], p, lenBytes, n) == if e <= n then Some(e) else None
  {
  }

  lemma AfterThreeVecs(buf: Str, n: nat, a: nat, b: nat, c: nat)
    requires |buf| == n && 43 <= a <= b <= c
    requires 43 <= n ==> SkipVec(buf, 43, 1, n) == if a <= n then Some(a) else None
    requires a <= n ==> SkipVec(buf, a, 2, n) == if b <= n then Some(b) else None
    requires b <= n ==> SkipVec(buf, b, 1, n) == if c <= n then Some(c) else None
    ensures AfterCompression(buf, n) == if c <= n then Some(c) else None
  {
  }

  lemma HeadPieces(r: Str, h: Hello)
    requires h.FieldsOk() && Holds(r, 9, h.Head())
    ensures Holds(r, 43, Vec8(h.sessionId)) && Holds(r, 44 + |h.sessionId|, Vec16(h.cipherSuites))
    ensures Holds(r, 46 + |h.sessionId| + |h.cipherSuites|, Vec8(h.compression))
  {
    var s, c, m := Vec8(h.sessionId), Vec16(h.cipherSuites), Vec8(h.compression);
    assert h.Head() == (h.version + h.random) + (s + (c + m));
    HoldsSplit(r, 9, h.version + h.random, s + (c + m));
    HoldsSplit(r, 43, s, c + m);
    HoldsSplit(r, 43 + |s|, c, m);
  }

  /** The walk over the head of the message, whole and cut. */
  lemma HeadEnds(r: Str, h: Hello, n: nat)
    requires h.FieldsOk() && Holds(r, 9, h.Head()) && n <= |r|
    ensures AfterCompression(r[..n], n) == if h.CompressionEnd() <= n then Some(h.CompressionEnd()) else None
  {
    var a := 44 + |h.sessionId|;
    var b := a + 2 + |h.cipherSuites|;
    var c := b + 1 + |h.compression|;
    HeadPieces(r, h);
    ReadVec8(r, 43, h.sessionId, |r|);
    ReadVec16(r, a, h.cipherSuites, |r|);
    ReadVec8(r, b, h.compression, |r|);
    SkipVecCut(r, 43, 1, a, n);
    SkipVecCut(r, a, 2, b, n);
    SkipVecCut(r, b, 1, c, n);
    AfterThreeVecs(r[..n], n, a, b, c);
  }

  lemma RecordLayout(h: Hello)
    requires h.WellFormed()
    ensures var r := h.Record();
            && |r| == h.CompressionEnd() + 2 + |h.ExtensionBytes()| && |r| - 5 <= MAX_RECORD_LEN
            && r[0] == 0x16 && r[1] == 0x03 && Be16(r, 3) == Some(|r| - 5)
            && r[5] == 0x01 && Be24(r, 6) == Some(|r| - 9)
            && Holds(r, 9, h.Head()) && Holds(r, h.CompressionEnd(), Vec16(h.ExtensionBytes()))
  {
    RecordPieces(h.recordMinor, h.Body());
    BodyPieces(h.Record(), h.Head(), h.ExtensionBytes());
  }

  lemma BodyPieces(r: Str, head: Str, exts: Str)
    requires |exts| < 0x1_0000 && Holds(r, 9, head + Vec16(exts))
    ensures Holds(r, 9, head) && Holds(r, 9 + |head|, Vec16(exts))
  {
    HoldsSplit(r, 9, head, Vec16(exts));
  }

  lemma RecordPieces(minor: Byte, body: Str)
    requires 4 + |body| <= MAX_RECORD_LEN
    ensures var r := [0x16, 0x03, minor] + U16(4 + |body|) + [0x01] + U24(|body|) + body;
            && |r| == 9 + |body|
            && r[0] == 0x16 && r[1] == 0x03 && Be16(r, 3) == Some(4 + |body|)
            && r[5] == 0x01 && Be24(r, 6) == Some(|body|) && Holds(r, 9, body)
  {
    var start, hs, len := [0x16, 0x03, minor], U16(4 + |body|), U24(|body|);
    var r := start + hs + [0x01] + len + body;
    assert r[3..5] == hs && r[6..9] == len && r[9..] == body && r[9..9 + |body|] == r[9..];
    ReadU16(r, 3, 4 + |body|);
    ReadU24(r, 6, |body|);
  }

  /** After the whole head has arrived, the extensions decide. */
  lemma ExtensionsCut(h: Hello, n: nat)
    requires h.WellFormed() && h.CompressionEnd() <= n <= |h.Record()|
    ensures ExtensionsOf(h.Record()[..n], h.CompressionEnd(), n) == Expected(h, n)
  {
    if n < h.CompressionEnd() + 2 {
      NoHeaderBefore(h.before, h.CompressionEnd() + 2, n);
    } else {
      BlockCut(h, n);
    }
  }

  /** An extensions block that fills the rest of a buffer, cut after its length. */
  lemma BlockOf(r: Str, c: nat, exts: Str, n: nat)
    requires |exts| < 0x1_0000 && Holds(r, c, Vec16(exts)) && |r| == c + 2 + |exts| && c + 2 <= n <= |r|
    ensures ExtensionsOf(r[..n], c, n) == ScanExtensions(r[..n], c + 2, n)
    ensures Holds(r, c + 2, exts)
  {
    HoldsSplit(r, c, U16(|exts|), exts);
    ReadU16(r, c, |exts|);
    Be16Cut(r, c, n);
  }

  lemma BlockCut(h: Hello, n: nat)
    requires h.WellFormed() && h.CompressionEnd() + 2 <= n <= |h.Record()|
    ensures ExtensionsOf(h.Record()[..n], h.CompressionEnd(), n) == Expected(h, n)
  {
    RecordLayout(h);
    BlockCutIn(h.Record(), h, n);
    ExpectedInBlock(h, n);
  }

  /** The server_name extension in its place, as far as it has arrived. */
  lemma SniScan(scan: nat -> SniResult, r: Str, n: nat, h: Hello, end: nat, sniLen: nat, found: SniResult)
    requires h.ExtensionsOk() && sniLen == |h.SniExtension().body| && found == Found(LowerAll(h.host))
    requires n <= |r| && scan == ExtensionScan(r, n) && Holds(r, end, h.SniExtension().Bytes())
    ensures end <= n ==> scan(end) == CutAnswer([], end, n, sniLen, found)
  {
    if end <= n {
      ScanCutAtSni(r, n, end, h);
    }
  }

  lemma SniHeld(r: Str, p: nat, h: Hello, end: nat)
    requires h.ExtensionsOk() && Holds(r, p, h.ExtensionBytes()) && end == p + |ExtsBytes(h.before)|
    ensures Holds(r, end, h.SniExtension().Bytes())
    ensures h.ExtensionBytes() == ExtsBytes(h.before) + (h.SniExtension().Bytes() + ExtsBytes(h.after))
  {
    BlockPieces(h);
    HoldsMiddle(r, p, ExtsBytes(h.before), h.SniExtension().Bytes(), ExtsBytes(h.after));
  }

  lemma BlockScan(
    scan: nat -> SniResult, r: Str, n: nat, p: nat, h: Hello, end: nat, sniLen: nat, found: SniResult)
    requires h.ExtensionsOk() && sniLen == |h.SniExtension().body| && found == Found(LowerAll(h.host))
    requires p <= n <= |r| && scan == ExtensionScan(r, n) && Holds(r, p, h.ExtensionBytes())
    requires end == p + |ExtsBytes(h.before)|
    ensures scan(p) == CutAnswer(h.before, p, n, sniLen, found)
  {
    SniHeld(r, p, h, end);
    SniScan(scan, r, n, h, end, sniLen, found);
    ExtensionsScan(scan, r, n, p, h.before, h.SniExtension().Bytes() + ExtsBytes(h.after), end, sniLen, found);
  }

  lemma BlockCutIn(r: Str, h: Hello, n: nat)
    requires h.FieldsOk() && h.ExtensionsOk() && |r| == h.CompressionEnd() + 2 + |h.ExtensionBytes()|
    requires Holds(r, h.CompressionEnd(), Vec16(h.ExtensionBytes())) && h.CompressionEnd() + 2 <= n <= |r|
    ensures ExtensionsOf(r[..n], h.CompressionEnd(), n)
         == CutAnswer(h.before, h.CompressionEnd() + 2, n, |h.SniExtension().body|, Found(LowerAll(h.host)))
  {
    BlockPieces(h);
    BlockCutAt(r, h.CompressionEnd(), h, h.ExtensionBytes(), n, |h.SniExtension().body|, Found(LowerAll(h.host)));
  }

  lemma BlockCutAt(r: Str, c: nat, h: Hello, exts: Str, n: nat, sniLen: nat, found: SniResult)
    requires h.ExtensionsOk() && exts == h.ExtensionBytes() && |exts| < 0x1_0000
    requires sniLen == |h.SniExtension().body| && found == Found(LowerAll(h.host))
    requires |r| == c + 2 + |exts| && Holds(r, c, Vec16(exts)) && c + 2 <= n <= |r|
    ensures ExtensionsOf(r[..n], c, n) == CutAnswer(h.before, c + 2, n, sniLen, found)
  {
    BlockOf(r, c, exts, n);
    BlockScan(ExtensionScan(r, n), r, n, c + 2, h, c + 2 + |ExtsBytes(h.before)|, sniLen, found);
  }

  lemma BlockPieces(h: Hello)
    requires h.ExtensionsOk()
    ensures h.ExtensionBytes() == ExtsBytes(h.before) + (h.SniExtension().Bytes() + ExtsBytes(h.after))
    ensures |h.ExtensionBytes()| < 0x1_0000
  {
  }

  lemma ExpectedInBlock(h: Hello, n: nat)
    requires h.WellFormed() && h.CompressionEnd() + 2 <= n
    ensures Expected(h, n)
         == CutAnswer(h.before, h.CompressionEnd() + 2, n, |h.SniExtension().body|, Found(LowerAll(h.host)))
  {
  }

  /** Exact classification of every prefix of a well-formed ClientHello: the host as soon as the whole
      server_name extension has arrived and never another one; before that "incomplete", except the
      (wrong) "not present" at the cut ending the compression methods and at cuts 0 to 3 bytes into an
      extension header up to and including that of server_name. */
  lemma EveryPrefixClassified(h: Hello, n: nat)
    requires h.WellFormed() && n <= |h.Record()|
    ensures SniOf(h.Record()[..n]) == Expected(h, n)
  {
    if n < h.CompressionEnd() {
      NoHeaderBeforeHead(h, n);
    }
    RecordHeaderCut(h, n);
    if n >= 9 {
      HandshakeCut(h, n);
    }
  }

  /** The host answered is the one the message holds, in small letters, from the end of the server_name extension on
      and not before; until then nothing is found. */
  lemma HostIsMessages(h: Hello, n: nat)
    requires h.WellFormed() && n <= |h.Record()|
    ensures SniOf(h.Record()[..n]).Found? <==>
              n >= 9 + 34 + 1 + |h.sessionId| + 2 + |h.cipherSuites| + 1 + |h.compression|
                   + 2 + |ExtsBytes(h.before)| + 4 + 2 + |h.NameList()|
    ensures SniOf(h.Record()[..n]).Found? ==> Ascii.LowersAll(h.host, SniOf(h.Record()[..n]).host)
  {
    EveryPrefixClassified(h, n);
    LowerAllIs(h.host);
  }

  lemma RecordHeaderCut(h: Hello, n: nat)
    requires h.WellFormed() && n <= |h.Record()|
    ensures SniOf(h.Record()[..n]) == if n < 9 then Incomplete else HandshakeOf(h.Record()[..n], n)
  {
    var r, buf := h.Record(), h.Record()[..n];
    RecordLayout(h);
    if n >= 5 {
      Be16Cut(r, 3, n);
      assert buf[0] == r[0] && buf[1] == r[1];
    }
  }

  lemma HandshakeByParts(buf: Str, n: nat, c: nat, due: SniResult)
    requires |buf| == n >= 9 && buf[5] == 0x01 && Be24(buf, 6).Some? && 9 + Be24(buf, 6).value >= n
    requires AfterCompression(buf, n) == if c <= n then Some(c) else None
    requires c <= n ==> ExtensionsOf(buf, c, n) == due
    ensures HandshakeOf(buf, n) == if n < c then Incomplete else due
  {
  }

  lemma Be24Cut(s: Str, p: nat, n: nat)
    requires p + 3 <= n <= |s|
    ensures Be24(s[..n], p) == Be24(s, p)
  {
  }

  lemma HandshakeCut(h: Hello, n: nat)
    requires h.WellFormed() && 9 <= n <= |h.Record()|
    ensures HandshakeOf(h.Record()[..n], n)
         == if n < h.CompressionEnd() then Incomplete else Expected(h, n)
  {
    var r := h.Record();
    RecordLayout(h);
    Be24Cut(r, 6, n);
    HeadEnds(r, h, n);
    if h.CompressionEnd() <= n {
      ExtensionsCut(h, n);
    }
    HandshakeByParts(r[..n], n, h.CompressionEnd(), Expected(h, n));
  }

  lemma NoHeaderBeforeHead(h: Hello, n: nat)
    requires h.WellFormed() && n < h.CompressionEnd()
    ensures Expected(h, n) == Incomplete
  {
    NoHeaderBefore(h.before, h.CompressionEnd() + 2, n);
  }

  /** The whole message, followed by anything, always names its host, in small letters. */
  lemma WholeHelloFound(h: Hello, more: Str)
    requires h.WellFormed()
    ensures SniOf(h.Record() + more) == Found(LowerAll(h.host))
    ensures Ascii.LowersAll(h.host, SniOf(h.Record() + more).host)
  {
    LowerAllIs(h.host);
    EveryPrefixClassified(h, |h.Record()|);
    RecordLayout(h);
    assert h.Record()[..|h.Record()|] == h.Record();
    FoundIsStable(h.Record(), more);
  }
}
