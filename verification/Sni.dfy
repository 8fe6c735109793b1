/** Extraction of the SNI host name from the start of a TLS stream (RFC 6066 section 3, RFC 8446
    sections 4.1.2 and 5.1), over a possibly partial, untrusted buffer. */
module Sni {
  import opened Wrappers
  import opened Bytes
  import opened Numbers
  import Ascii
  import Utf8

  datatype SniResult = Found(host: Str) | NotPresent | Incomplete

  const MAX_RECORD_LEN := 16640

  function Lower(b: Byte): Byte { if 0x41 <= b <= 0x5A then b + 0x20 else b }

  function LowerAll(s: Str): Str {
    seq(|s|, i requires 0 <= i < |s| => Lower(s[i]))
  }

  lemma LowerAllIs(s: Str)
    ensures Ascii.LowersAll(s, LowerAll(s))
  {
    forall i | 0 <= i < |s| ensures Ascii.Lowers(s[i], LowerAll(s)[i]) {
      Ascii.LowersIff(s[i], LowerAll(s)[i]);
    }
  }

  /** Big-endian numbers at `p`, or `None` out of bounds. */
  function Be16(buf: Str, p: nat): Option<nat> {
    if p + 2 <= |buf| then Some((buf[p] as int) * 0x100 + buf[p + 1]) else None
  }

  function Be24(buf: Str, p: nat): Option<nat> {
    if p + 3 <= |buf| then Some((buf[p] as int) * 0x1_0000 + (buf[p + 1] as int) * 0x100 + buf[p + 2]) else None
  }

  function Advance(p: nat, n: nat, ceiling: nat): Option<nat> {
    if p + n <= ceiling then Some(p + n) else None
  }

  /** Skips a vector with a length of `lenBytes` (1 or 2) bytes. */
  function SkipVec(buf: Str, p: nat, lenBytes: nat, ceiling: nat): Option<nat> {
    var len :=
      if lenBytes == 1 then
        if p < |buf| && p < ceiling then Some(buf[p] as nat) else None
      else if p + 2 <= ceiling then Be16(buf, p) else None;
    match len
    case None => None
    case Some(n) => Advance(p + lenBytes, n, ceiling)
  }

  // ---- The parser as a function of the buffer ----

  /** The end of the compression methods, when everything up to there has arrived. */
  function AfterCompression(buf: Str, ceiling: nat): Option<nat> {
    match Advance(9, 34, ceiling)
    case None => None
    case Some(session) =>
      match SkipVec(buf, session, 1, ceiling)
      case None => None
      case Some(ciphers) =>
        match SkipVec(buf, ciphers, 2, ceiling)
        case None => None
        case Some(compression) => SkipVec(buf, compression, 1, ceiling)
  }

  /** What a host name entry answers: a name that is text, lower-cased. */
  function HostAnswer(name: Str): SniResult {
    if name != [] && Utf8.IsUtf8(name) then Found(LowerAll(name)) else NotPresent
  }

  /** The scan of the server name list from entry offset `q`, given the answer of a host name entry. */
  function ScanList(answer: Str -> SniResult, buf: Str, q: nat, listEnd: nat): SniResult
    requires listEnd <= |buf|
    decreases listEnd - q
  {
    if q + 3 > listEnd then NotPresent
    else
      var nameEnd := q + 3 + Be16(buf, q + 1).value;
      if nameEnd > |buf| then Incomplete
      else if nameEnd > listEnd then NotPresent
      else if buf[q] == 0 then answer(buf[q + 3..nameEnd])
      else ScanList(answer, buf, nameEnd, listEnd)
  }

  function ScanNames(buf: Str, q: nat, listEnd: nat): SniResult
    requires listEnd <= |buf|
  {
    ScanList(HostAnswer, buf, q, listEnd)
  }

  function ServerNameOf(buf: Str, start: nat, end: nat): SniResult {
    match Be16(buf, start)
    case None => Incomplete
    case Some(listLen) =>
      var listEnd := start + 2 + listLen;
      if listEnd > |buf| then Incomplete
      else if listEnd > end then NotPresent
      else ScanNames(buf, start + 2, listEnd)
  }

  /** The scan of the extensions from header offset `p`. */
  function ScanExtensions(buf: Str, p: nat, extEnd: nat): SniResult
    requires extEnd <= |buf|
    decreases extEnd - p
  {
    if p + 4 > extEnd then NotPresent
    else
      var bodyEnd := p + 4 + Be16(buf, p + 2).value;
      if bodyEnd > |buf| then Incomplete
      else if bodyEnd > extEnd then NotPresent
      else if Be16(buf, p) == Some(0) then ServerNameOf(buf, p + 4, bodyEnd)
      else ScanExtensions(buf, bodyEnd, extEnd)
  }

  function ExtensionsOf(buf: Str, p: nat, hsEnd: nat): SniResult
    requires hsEnd <= |buf|
  {
    if p == hsEnd then NotPresent
    else
      match Be16(buf, p)
      case None => Incomplete
      case Some(total) => ScanExtensions(buf, p + 2, Min(p + 2 + total, hsEnd))
  }

  /** The handshake of a buffer whose record header was accepted. */
  function HandshakeOf(buf: Str, recordEnd: nat): SniResult
    requires recordEnd <= |buf|
  {
    if recordEnd < 9 then Incomplete
    else if buf[5] != 0x01 then NotPresent
    else
      var hsEnd := Min(9 + Be24(buf, 6).value, recordEnd);
      match AfterCompression(buf, hsEnd)
      case None => Incomplete
      case Some(p) => ExtensionsOf(buf, p, hsEnd)
  }

  function SniOf(buf: Str): SniResult {
    if |buf| < 5 then Incomplete
    else if buf[0] != 0x16 || buf[1] != 0x03 then NotPresent
    else
      var recordLen := Be16(buf, 3).value;
      if recordLen > MAX_RECORD_LEN then NotPresent
      else HandshakeOf(buf, Min(5 + recordLen, |buf|))
  }

  // ---- What the answers mean ----

  /** At `p` stands a host name entry: type 0, a length of two bytes, and a name that is text; `host` is that name
      in small letters. */
  ghost predicate NamesHost(buf: Str, p: nat, host: Str) {
    && p + 3 + |host| <= |buf| && host != []
    && buf[p] == 0 && (buf[p + 1] as int) * 256 + buf[p + 2] == |host|
    && Utf8.IsUtf8(buf[p + 3..p + 3 + |host|]) && Ascii.LowersAll(buf[p + 3..p + 3 + |host|], host)
  }

  ghost predicate OnTheWire(buf: Str, r: SniResult) {
    r.Found? ==> exists p :: NamesHost(buf, p, r.host)
  }

  lemma {:induction false} ListIsOnTheWire(buf: Str, q: nat, listEnd: nat)
    requires listEnd <= |buf| && ScanList(HostAnswer, buf, q, listEnd).Found?
    ensures exists p :: NamesHost(buf, p, ScanList(HostAnswer, buf, q, listEnd).host)
    decreases listEnd - q
  {
    var nameEnd := q + 3 + Be16(buf, q + 1).value;
    if buf[q] == 0 {
      EntryIsOnTheWire(buf, q, buf[q + 3..nameEnd]);
    } else {
      ListIsOnTheWire(buf, nameEnd, listEnd);
    }
  }

  lemma EntryIsOnTheWire(buf: Str, q: nat, name: Str)
    requires q + 3 + |name| <= |buf| && buf[q] == 0 && Be16(buf, q + 1) == Some(|name|)
    requires name == buf[q + 3..q + 3 + |name|] && HostAnswer(name).Found?
    ensures NamesHost(buf, q, HostAnswer(name).host)
  {
    LowerAllIs(name);
  }

  lemma ServerNameIsOnTheWire(buf: Str, start: nat, end: nat)
    ensures OnTheWire(buf, ServerNameOf(buf, start, end))
  {
    if ServerNameOf(buf, start, end).Found? {
      ListIsOnTheWire(buf, start + 2, start + 2 + Be16(buf, start).value);
    }
  }

  lemma {:induction false} ExtensionIsOnTheWire(buf: Str, p: nat, extEnd: nat)
    requires extEnd <= |buf|
    ensures OnTheWire(buf, ScanExtensions(buf, p, extEnd))
    decreases extEnd - p
  {
    if ScanExtensions(buf, p, extEnd).Found? {
      var bodyEnd := p + 4 + Be16(buf, p + 2).value;
      if Be16(buf, p) == Some(0) {
        ServerNameIsOnTheWire(buf, p + 4, bodyEnd);
      } else {
        ExtensionIsOnTheWire(buf, bodyEnd, extEnd);
      }
    }
  }

  lemma BlockIsOnTheWire(buf: Str, p: nat, hsEnd: nat)
    requires hsEnd <= |buf|
    ensures OnTheWire(buf, ExtensionsOf(buf, p, hsEnd))
  {
    if ExtensionsOf(buf, p, hsEnd).Found? {
      ExtensionIsOnTheWire(buf, p + 2, Min(p + 2 + Be16(buf, p).value, hsEnd));
    }
  }

  lemma HandshakeIsOnTheWire(buf: Str, recordEnd: nat)
    requires recordEnd <= |buf|
    ensures OnTheWire(buf, HandshakeOf(buf, recordEnd))
  {
    if HandshakeOf(buf, recordEnd).Found? {
      var hsEnd := Min(9 + Be24(buf, 6).value, recordEnd);
      BlockIsOnTheWire(buf, AfterCompression(buf, hsEnd).value, hsEnd);
    }
  }

  /** On every buffer, well formed or not: a host that is found stands there as a host name entry. */
  lemma FoundIsOnTheWire(buf: Str)
    ensures SniOf(buf).Found? ==> exists p :: NamesHost(buf, p, SniOf(buf).host)
  {
    if SniOf(buf).Found? {
      HandshakeIsOnTheWire(buf, Min(5 + Be16(buf, 3).value, |buf|));
    }
  }

  /** What the two headers decide, whatever follows them: fewer than 5 bytes are incomplete; no TLS handshake
      record, a record longer than 16640 bytes, or another message than a ClientHello is "not present". */
  lemma HeadersDecide(buf: Str, more: Str)
    ensures |buf| < 5 ==> SniOf(buf) == Incomplete
    ensures |buf| >= 5 && (buf[0] != 0x16 || buf[1] != 0x03) ==> SniOf(buf + more) == NotPresent
    ensures |buf| >= 5 && (buf[3] as int) * 256 + buf[4] > 16640 ==> SniOf(buf + more) == NotPresent
    ensures |buf| >= 9 && (buf[3] as int) * 256 + buf[4] >= 4 && buf[5] != 1 ==> SniOf(buf + more) == NotPresent
    ensures var s := buf + more;
            5 <= |s| && s[0] == 0x16 && s[1] == 0x03 && (s[3] as int) * 256 + s[4] <= 16640 ==>
              (|s| < 9 || (s[3] as int) * 256 + s[4] < 4 ==> SniOf(s) == Incomplete)
  {
    assert forall i | 0 <= i < |buf| :: (buf + more)[i] == buf[i];
  }

  // ---- The parser with its cursors ----

  method ParseServerName(buf: Str, start: nat, end: nat) returns (r: SniResult)
    ensures r == ServerNameOf(buf, start, end)
    ensures OnTheWire(buf, r)
  {
    ServerNameIsOnTheWire(buf, start, end);
    var listLen := Be16(buf, start);
    if listLen.None? {
      return Incomplete;
    }
    var q := start + 2;
    var listEnd := q + listLen.value;
    if listEnd > |buf| {
      return Incomplete;
    }
    if listEnd > end {
      return NotPresent;
    }
    while q + 3 <= listEnd
      invariant ServerNameOf(buf, start, end) == ScanNames(buf, q, listEnd)
      decreases listEnd - q
    {
      var nameType := buf[q];
      var nameLen := Be16(buf, q + 1);
      q := q + 3;
      var nameEnd := q + nameLen.value;
      if nameEnd > |buf| {
        return Incomplete;
      }
      if nameEnd > listEnd {
        return NotPresent;
      }
      if nameType == 0x00 {
        var name := buf[q..nameEnd];
        if Utf8.IsUtf8(name) && name != [] {
          return Found(LowerAll(name));
        }
        return NotPresent;
      }
      q := nameEnd;
    }
    r := NotPresent;
  }

  /** Bounds-safe on every buffer: no index below can be out of range. */
  method ExtractSni(buf: Str) returns (r: SniResult)
    ensures r == SniOf(buf)
  {
    if |buf| < 5 {
      return Incomplete;
    }
    if buf[0] != 0x16 {
      return NotPresent;
    }
    if buf[1] != 0x03 {
      return NotPresent;
    }
    var recordLen := Be16(buf, 3).value;
    if recordLen > MAX_RECORD_LEN {
      return NotPresent;
    }
    var recordEnd := Min(5 + recordLen, |buf|);
    if recordEnd < 9 {
      return Incomplete;
    }
    if buf[5] != 0x01 {
      return NotPresent;
    }
    var hsEnd := Min(9 + Be24(buf, 6).value, recordEnd);
    var p := Advance(9, 2 + 32, hsEnd);
    if p.None? {
      return Incomplete;
    }
    p := SkipVec(buf, p.value, 1, hsEnd);
    if p.None? {
      return Incomplete;
    }
    p := SkipVec(buf, p.value, 2, hsEnd);
    if p.None? {
      return Incomplete;
    }
    p := SkipVec(buf, p.value, 1, hsEnd);
    if p.None? {
      return Incomplete;
    }
    if p.value == hsEnd {
      return NotPresent;
    }
    var extTotal := Be16(buf, p.value);
    if extTotal.None? {
      return Incomplete;
    }
    r := WalkExtensions(buf, p.value + 2, Min(p.value + 2 + extTotal.value, hsEnd));
  }

  method WalkExtensions(buf: Str, start: nat, extEnd: nat) returns (r: SniResult)
    requires extEnd <= |buf|
    ensures r == ScanExtensions(buf, start, extEnd)
  {
    var p := start;
    while p + 4 <= extEnd
      invariant ScanExtensions(buf, start, extEnd) == ScanExtensions(buf, p, extEnd)
      decreases extEnd - p
    {
      var extType := Be16(buf, p).value;
      var extLen := Be16(buf, p + 2).value;
      var bodyStart := p + 4;
      var bodyEnd := bodyStart + extLen;
      if bodyEnd > |buf| {
        return Incomplete;
      }
      if bodyEnd > extEnd {
        return NotPresent;
      }
      if extType == 0x0000 {
        r := ParseServerName(buf, bodyStart, bodyEnd);
        return;
      }
      p := bodyEnd;
    }
    r := NotPresent;
  }

  // ---- Found is stable ----

  lemma SkipVecStable(buf: Str, buf': Str, p: nat, lenBytes: nat, c: nat, c': nat)
    requires buf <= buf' && c <= c' && c <= |buf| && SkipVec(buf, p, lenBytes, c).Some? && lenBytes in {1, 2}
    ensures SkipVec(buf', p, lenBytes, c') == SkipVec(buf, p, lenBytes, c)
  {
    assert forall i | 0 <= i < |buf| :: buf'[i] == buf[i];
  }

  lemma AfterCompressionStable(buf: Str, buf': Str, c: nat, c': nat)
    requires buf <= buf' && c <= c' && c <= |buf| && AfterCompression(buf, c).Some?
    ensures AfterCompression(buf', c') == AfterCompression(buf, c)
    ensures AfterCompression(buf, c).value <= c
  {
    var ciphers := SkipVec(buf, 43, 1, c).value;
    var compression := SkipVec(buf, ciphers, 2, c).value;
    SkipVecStable(buf, buf', 43, 1, c, c');
    SkipVecStable(buf, buf', ciphers, 2, c, c');
    SkipVecStable(buf, buf', compression, 1, c, c');
  }

  lemma {:induction false} ListStable(answer: Str -> SniResult, buf: Str, buf': Str, q: nat, listEnd: nat)
    requires buf <= buf' && listEnd <= |buf| && ScanList(answer, buf, q, listEnd).Found?
    ensures ScanList(answer, buf', q, listEnd) == ScanList(answer, buf, q, listEnd)
    decreases listEnd - q
  {
    var nameEnd := q + 3 + Be16(buf, q + 1).value;
    assert buf'[q + 3..nameEnd] == buf[q + 3..nameEnd];
    assert Be16(buf', q + 1) == Be16(buf, q + 1) && buf'[q] == buf[q];
    if buf[q] != 0 {
      ListStable(answer, buf, buf', nameEnd, listEnd);
    }
  }

  lemma {:induction false} ExtensionsStable(buf: Str, buf': Str, p: nat, e: nat, e': nat)
    requires buf <= buf' && e <= e' && e <= |buf| && e' <= |buf'| && ScanExtensions(buf, p, e).Found?
    ensures ScanExtensions(buf', p, e') == ScanExtensions(buf, p, e)
    decreases e - p
  {
    var bodyEnd := p + 4 + Be16(buf, p + 2).value;
    assert Be16(buf', p + 2) == Be16(buf, p + 2) && Be16(buf', p) == Be16(buf, p);
    if Be16(buf, p) == Some(0) {
      assert Be16(buf', p + 4) == Be16(buf, p + 4);
      ListStable(HostAnswer, buf, buf', p + 6, p + 6 + Be16(buf, p + 4).value);
    } else {
      ExtensionsStable(buf, buf', bodyEnd, e, e');
    }
  }

  /** Numbers read from the shorter buffer read the same in the longer one. */
  lemma ReadsStable(buf: Str, buf': Str, p: nat)
    requires buf <= buf'
    ensures Be16(buf, p).Some? ==> Be16(buf', p) == Be16(buf, p)
    ensures Be24(buf, p).Some? ==> Be24(buf', p) == Be24(buf, p)
  {
  }

  lemma BlockStable(buf: Str, buf': Str, p: nat, c: nat, c': nat)
    requires buf <= buf' && c <= c' && c <= |buf| && c' <= |buf'| && p <= c && ExtensionsOf(buf, p, c).Found?
    ensures ExtensionsOf(buf', p, c') == ExtensionsOf(buf, p, c)
  {
    ReadsStable(buf, buf', p);
    var total := Be16(buf, p).value;
    ExtensionsStable(buf, buf', p + 2, Min(p + 2 + total, c), Min(p + 2 + total, c'));
  }

  lemma RestStable(buf: Str, buf': Str, c: nat, c': nat)
    requires buf <= buf' && c <= c' && c <= |buf| && c' <= |buf'| && AfterCompression(buf, c).Some?
    requires ExtensionsOf(buf, AfterCompression(buf, c).value, c).Found?
    ensures AfterCompression(buf', c') == AfterCompression(buf, c)
    ensures var p := AfterCompression(buf, c).value; ExtensionsOf(buf', p, c') == ExtensionsOf(buf, p, c)
  {
    AfterCompressionStable(buf, buf', c, c');
    BlockStable(buf, buf', AfterCompression(buf, c).value, c, c');
  }

  lemma HandshakeStable(buf: Str, buf': Str, e: nat, e': nat)
    requires buf <= buf' && e <= e' && e <= |buf| && e' <= |buf'| && HandshakeOf(buf, e).Found?
    ensures HandshakeOf(buf', e') == HandshakeOf(buf, e)
  {
    ReadsStable(buf, buf', 6);
    var len := Be24(buf, 6).value;
    RestStable(buf, buf', Min(9 + len, e), Min(9 + len, e'));
  }

  /** A host once found is found, unchanged, in every longer buffer. */
  lemma FoundIsStable(buf: Str, more: Str)
    requires SniOf(buf).Found?
    ensures SniOf(buf + more) == SniOf(buf)
  {
    var buf' := buf + more;
    assert buf <= buf';
    ReadsStable(buf, buf', 3);
    var len := Be16(buf, 3).value;
    HandshakeStable(buf, buf', Min(5 + len, |buf|), Min(5 + len, |buf'|));
  }
}
