/** Percent- and form-encoding, its decoder, and the two texts built from encoded pairs: the UMA request
    body and the SigV4 canonical query string (RFC 3986 section 2.3 for the unreserved set). */
module Encoding {
  import opened Ascii
  import opened Wrappers
  import opened Bytes
  import opened Sorting
  import opened Splitting
  import Utf8

  const SPACE: Byte := 0x20
  const PERCENT: Byte := 0x25
  const AMPERSAND: Byte := 0x26
  const PLUS: Byte := 0x2B
  const EQUALS: Byte := 0x3D

  predicate Unreserved(b: Byte) {
    || 0x41 <= b <= 0x5A || 0x61 <= b <= 0x7A || 0x30 <= b <= 0x39
    || b == 0x2D || b == 0x5F || b == 0x2E || b == 0x7E
  }

  /** One upper-case hexadecimal digit. */
  function HexDigit(n: nat): Byte
    requires n < 16
  {
    if n < 10 then 0x30 + n else 0x41 + (n - 10)
  }

  function HexVal(b: Byte): (r: Option<nat>)
    ensures r.Some? ==> r.value < 16
  {
    var n: int := b;
    if 0x30 <= n <= 0x39 then Some(n - 0x30)
    else if 0x61 <= n <= 0x66 then Some(n - 0x61 + 10)
    else if 0x41 <= n <= 0x46 then Some(n - 0x41 + 10)
    else None
  }

  /** `form` tells the form encoder, which writes a space as `+`, from the URI encoder. */
  function EncodedByte(b: Byte, form: bool): Str {
    if Unreserved(b) then [b]
    else if form && b == SPACE then [PLUS]
    else [PERCENT, HexDigit(b / 16), HexDigit(b % 16)]
  }

  function Encoded(s: Str, form: bool): Str {
    if s == [] then [] else EncodedByte(s[0], form) + Encoded(s[1..], form)
  }

  lemma {:induction false} EncodedConcat(a: Str, b: Str, form: bool)
    ensures Encoded(a + b, form) == Encoded(a, form) + Encoded(b, form)
  {
    if a == [] {
      assert a + b == b;
    } else {
      assert (a + b)[1..] == a[1..] + b;
      EncodedConcat(a[1..], b, form);
    }
  }

  lemma EncodedNext(s: Str, i: nat, form: bool)
    requires i < |s|
    ensures Encoded(s[..i + 1], form) == Encoded(s[..i], form) + EncodedByte(s[i], form)
  {
    assert s[..i + 1] == s[..i] + [s[i]];
    EncodedConcat(s[..i], [s[i]], form);
    assert [s[i]][1..] == [];
  }

  // ---- What the encoders write, spelled out ----

  /** A percent sign and the two capital hexadecimal digits of a byte. */
  predicate IsEscapeOf(piece: Str, b: Byte) {
    && |piece| == 3 && |HEX| == 16
    && piece[0] as char == '%' && piece[1] as char == HEX[b / 16] && piece[2] as char == HEX[b % 16]
  }

  predicate UriPiece(b: Byte, piece: Str) {
    if (b as char) in UNRESERVED then piece == [b] else IsEscapeOf(piece, b)
  }

  predicate FormPiece(b: Byte, piece: Str) {
    if (b as char) in UNRESERVED then piece == [b]
    else if b as char == ' ' then |piece| == 1 && piece[0] as char == '+'
    else IsEscapeOf(piece, b)
  }

  function Joined(pieces: seq<Str>): Str {
    if pieces == [] then [] else pieces[0] + Joined(pieces[1..])
  }

  /** `out` is one piece for every byte of `s`, one after the other. */
  ghost predicate PieceByPiece(s: Str, out: Str, fits: (Byte, Str) -> bool) {
    exists pieces :: |pieces| == |s| && out == Joined(pieces) && forall i | 0 <= i < |s| :: fits(s[i], pieces[i])
  }

  lemma EscapeSpelled(b: Byte)
    ensures IsEscapeOf([PERCENT, HexDigit(b / 16), HexDigit(b % 16)], b)
  {
    HexAt(b / 16);
    HexAt(b % 16);
  }

  lemma ByteSpelled(b: Byte, form: bool)
    ensures if form then FormPiece(b, EncodedByte(b, form)) else UriPiece(b, EncodedByte(b, form))
  {
    UnreservedIff(b);
    EscapeSpelled(b);
  }

  lemma {:induction false} EncodedIsPieces(s: Str, form: bool, fits: (Byte, Str) -> bool)
    requires forall b :: fits(b, EncodedByte(b, form))
    ensures PieceByPiece(s, Encoded(s, form), fits)
  {
    if s == [] {
      assert Encoded(s, form) == Joined([]);
    } else {
      EncodedIsPieces(s[1..], form, fits);
      var rest :| |rest| == |s[1..]| && Encoded(s[1..], form) == Joined(rest)
               && forall i | 0 <= i < |s[1..]| :: fits(s[1..][i], rest[i]);
      var pieces := [EncodedByte(s[0], form)] + rest;
      assert pieces[1..] == rest;
      forall i | 0 <= i < |s| ensures fits(s[i], pieces[i]) {
        if i > 0 {
          assert s[i] == s[1..][i - 1] && pieces[i] == rest[i - 1];
        }
      }
      assert Encoded(s, form) == Joined(pieces);
    }
  }

  /** The URI encoder: an unreserved byte stands for itself, every other one is escaped in capitals. */
  lemma UriEncodedSpelled(s: Str)
    ensures PieceByPiece(s, Encoded(s, false), UriPiece)
  {
    forall b ensures UriPiece(b, EncodedByte(b, false)) {
      ByteSpelled(b, false);
    }
    EncodedIsPieces(s, false, UriPiece);
  }

  /** The form encoder: the same, with a plus sign for a space. */
  lemma FormEncodedSpelled(s: Str)
    ensures PieceByPiece(s, Encoded(s, true), FormPiece)
  {
    forall b ensures FormPiece(b, EncodedByte(b, true)) {
      ByteSpelled(b, true);
    }
    EncodedIsPieces(s, true, FormPiece);
  }

  method FormEncode(s: Str) returns (out: Str)
    ensures out == Encoded(s, true) && PieceByPiece(s, out, FormPiece)
  {
    out := [];
    for i := 0 to |s|
      invariant out == Encoded(s[..i], true)
    {
      var b := s[i];
      EncodedNext(s, i, true);
      if Unreserved(b) {
        out := out + [b];
      } else if b == SPACE {
        out := out + [PLUS];
      } else {
        out := out + [PERCENT, HexDigit(b / 16), HexDigit(b % 16)];
      }
    }
    assert s[..|s|] == s;
    FormEncodedSpelled(s);
  }

  method UriEncode(s: Str) returns (out: Str)
    ensures out == Encoded(s, false) && PieceByPiece(s, out, UriPiece)
  {
    out := [];
    for i := 0 to |s|
      invariant out == Encoded(s[..i], false)
    {
      var b := s[i];
      EncodedNext(s, i, false);
      if Unreserved(b) {
        out := out + [b];
      } else {
        out := out + [PERCENT, HexDigit(b / 16), HexDigit(b % 16)];
      }
    }
    assert s[..|s|] == s;
    UriEncodedSpelled(s);
  }

  // ---- The decoder ----

  /** The decoder takes hexadecimal digits of both cases, and nothing else. */
  lemma HexValSpelled(b: Byte, n: nat)
    ensures HexVal(b) == Some(n) <==>
              n < 16 && |HEX| == 16 == |SMALL_HEX| && (b as char == HEX[n] || b as char == SMALL_HEX[n])
  {
    HexAt(if n < 16 then n else 0);
  }

  /** A `%` counts as an escape when two more bytes follow it and both are hexadecimal digits. */
  function Escape(s: Str): Option<Byte> {
    if |s| > 2 && s[0] == PERCENT && HexVal(s[1]).Some? && HexVal(s[2]).Some?
    then Some(HexVal(s[1]).value * 16 + HexVal(s[2]).value)
    else None
  }

  function Decoded(s: Str): Str {
    if s == [] then []
    else if Escape(s).Some? then
      assert |s| > 2;
      [Escape(s).value] + Decoded(s[3..])
    else [if s[0] == PLUS then SPACE else s[0]] + Decoded(s[1..])
  }

  function UrlDecoded(s: Str): Str { Utf8.Lossy(Decoded(s)) }

  predicate EscapeAt(s: Str, i: nat) {
    i + 2 < |s| && s[i] == PERCENT && HexVal(s[i + 1]).Some? && HexVal(s[i + 2]).Some?
  }

  /** One step of the decoder, `out` being what it has written so far. */
  lemma DecodedPlain(s: Str, i: nat, out: Str)
    requires i < |s| && !EscapeAt(s, i)
    ensures out + [if s[i] == PLUS then SPACE else s[i]] + Decoded(s[i + 1..]) == out + Decoded(s[i..])
  {
    assert s[i..][1..] == s[i + 1..];
    assert Escape(s[i..]).None?;
  }

  lemma DecodedEscape(s: Str, i: nat, out: Str)
    requires EscapeAt(s, i)
    ensures out + [HexVal(s[i + 1]).value * 16 + HexVal(s[i + 2]).value] + Decoded(s[i + 3..]) == out + Decoded(s[i..])
  {
    assert s[i..][3..] == s[i + 3..];
    assert Escape(s[i..]).Some?;
  }

  method UrlDecode(s: Str) returns (r: Str)
    ensures r == UrlDecoded(s)
  {
    var out: Str := [];
    var i := 0;
    while i < |s|
      invariant 0 <= i <= |s|
      invariant out + Decoded(s[i..]) == Decoded(s)
    {
      if s[i] == PLUS {
        DecodedPlain(s, i, out);
        out := out + [SPACE];
      } else if s[i] == PERCENT && i + 2 < |s| {
        var h, l := HexVal(s[i + 1]), HexVal(s[i + 2]);
        if h.Some? && l.Some? {
          DecodedEscape(s, i, out);
          out := out + [h.value * 16 + l.value];
          i := i + 3;
          continue;
        }
        DecodedPlain(s, i, out);
        out := out + [PERCENT];
      } else {
        DecodedPlain(s, i, out);
        out := out + [s[i]];
      }
      i := i + 1;
    }
    assert s[i..] == [] && out + [] == out;
    r := Utf8.Lossy(out);
  }

  lemma HexRoundTrip(n: nat)
    requires n < 16
    ensures HexVal(HexDigit(n)) == Some(n)
  {
  }

  lemma DecodedAfterByte(b: Byte, form: bool, rest: Str)
    ensures Decoded(EncodedByte(b, form) + rest) == [b] + Decoded(rest)
  {
    var e := EncodedByte(b, form);
    if |e| == 1 {
      assert (e + rest)[1..] == rest;
    } else {
      HexRoundTrip(b / 16);
      HexRoundTrip(b % 16);
      assert (e + rest)[3..] == rest;
    }
  }

  /** Byte for byte, decoding undoes both encoders, on every byte string. */
  lemma {:induction false} DecodedEncoded(s: Str, form: bool)
    ensures Decoded(Encoded(s, form)) == s
  {
    if s != [] {
      DecodedAfterByte(s[0], form, Encoded(s[1..], form));
      DecodedEncoded(s[1..], form);
    }
  }

  /** On text, the whole decoder, with its lossy last step, undoes both encoders. */
  lemma DecodeUndoesEncode(s: Str, form: bool)
    requires Utf8.IsUtf8(s)
    ensures UrlDecoded(Encoded(s, form)) == s
  {
    DecodedEncoded(s, form);
  }

  /** Encoders never emit a separator. */
  lemma {:induction false} EncodedHasNoSeparator(s: Str, form: bool)
    ensures AMPERSAND !in Encoded(s, form) && EQUALS !in Encoded(s, form)
  {
    if s != [] {
      EncodedHasNoSeparator(s[1..], form);
    }
  }

  // ---- Pairs ----

  type Pair = (Str, Str)

  function PairText(p: Pair): Str { p.0 + [EQUALS] + p.1 }

  function PairTexts(ps: seq<Pair>): (r: seq<Str>)
    ensures |r| == |ps|
  {
    if ps == [] then [] else [PairText(ps[0])] + PairTexts(ps[1..])
  }

  /** `join("&")` of the pairs. */
  function QueryText(ps: seq<Pair>): Str {
    if ps == [] then [] else Join(PairTexts(ps), AMPERSAND)
  }

  function Apply(f: Pair -> Pair, ps: seq<Pair>): (r: seq<Pair>)
    ensures |r| == |ps|
  {
    if ps == [] then [] else [f(ps[0])] + Apply(f, ps[1..])
  }

  function FormPair(p: Pair): Pair { (Encoded(p.0, true), Encoded(p.1, true)) }

  function UriPair(p: Pair): Pair { (Encoded(p.0, false), Encoded(p.1, false)) }

  function DecodedPair(p: Pair): Pair { (UrlDecoded(p.0), UrlDecoded(p.1)) }

  /** Reads every piece as a pair; `None` when one has no `=`. */
  function ReadPieces(pieces: seq<Str>): Option<seq<Pair>> {
    if pieces == [] then Some([])
    else match (SplitOnce(pieces[0], EQUALS), ReadPieces(pieces[1..]))
      case (Some(p), Some(ps)) => Some([p] + ps)
      case _ => None
  }

  function ReadPairs(text: Str): Option<seq<Pair>> {
    if text == [] then Some([]) else ReadPieces(Split(text, AMPERSAND))
  }

  predicate PairIsUtf8(p: Pair) { Utf8.IsUtf8(p.0) && Utf8.IsUtf8(p.1) }

  predicate SeparatorFree(p: Pair) {
    AMPERSAND !in p.0 && EQUALS !in p.0 && AMPERSAND !in p.1
  }

  lemma {:induction false} PiecesReadBack(ps: seq<Pair>)
    requires forall p | p in ps :: SeparatorFree(p)
    ensures ReadPieces(PairTexts(ps)) == Some(ps)
    ensures forall t | t in PairTexts(ps) :: AMPERSAND !in t
  {
    if ps != [] {
      assert SeparatorFree(ps[0]);
      SplitOnceAtFirst(ps[0].0, ps[0].1, EQUALS);
      assert forall p :: p in ps[1..] ==> p in ps;
      PiecesReadBack(ps[1..]);
      assert PairTexts(ps)[1..] == PairTexts(ps[1..]);
      assert [ps[0]] + ps[1..] == ps;
    }
  }

  /** The joined text splits back, at `&` and then at the first `=`, to exactly the list it was built from. */
  lemma PairsReadBack(ps: seq<Pair>)
    requires forall p | p in ps :: SeparatorFree(p)
    ensures ReadPairs(QueryText(ps)) == Some(ps)
  {
    if ps != [] {
      PiecesReadBack(ps);
      SplitJoin(PairTexts(ps), AMPERSAND);
      assert SeparatorFree(ps[0]);
      NotEmptyText(ps);
    }
  }

  lemma NotEmptyText(ps: seq<Pair>)
    requires ps != []
    ensures QueryText(ps) != []
  {
    assert PairTexts(ps)[0] == PairText(ps[0]);
  }

  ghost predicate IsPairEncoder(f: Pair -> Pair) {
    f == FormPair || f == UriPair
  }

  lemma EncodedPairIsSeparatorFree(f: Pair -> Pair, p: Pair)
    requires IsPairEncoder(f)
    ensures SeparatorFree(f(p))
  {
    EncodedHasNoSeparator(p.0, f == FormPair);
    EncodedHasNoSeparator(p.1, f == FormPair);
  }

  lemma {:induction false} EncodedPairsAreSeparatorFree(f: Pair -> Pair, ps: seq<Pair>)
    requires IsPairEncoder(f)
    ensures forall p | p in Apply(f, ps) :: SeparatorFree(p)
  {
    if ps != [] {
      EncodedPairIsSeparatorFree(f, ps[0]);
      EncodedPairsAreSeparatorFree(f, ps[1..]);
    }
  }

  lemma DecodedPairUndoes(f: Pair -> Pair, p: Pair)
    requires IsPairEncoder(f) && PairIsUtf8(p)
    ensures DecodedPair(f(p)) == p
  {
    DecodeUndoesEncode(p.0, f == FormPair);
    DecodeUndoesEncode(p.1, f == FormPair);
  }

  lemma {:induction false} DecodedPairsUndo(f: Pair -> Pair, ps: seq<Pair>)
    requires IsPairEncoder(f) && forall p | p in ps :: PairIsUtf8(p)
    ensures Apply(DecodedPair, Apply(f, ps)) == ps
  {
    if ps != [] {
      assert PairIsUtf8(ps[0]);
      DecodedPairUndoes(f, ps[0]);
      assert forall p :: p in ps[1..] ==> p in ps;
      DecodedPairsUndo(f, ps[1..]);
      assert Apply(f, ps)[1..] == Apply(f, ps[1..]);
      assert [ps[0]] + ps[1..] == ps;
    }
  }

  // ---- The UMA permission request ----

  /** The fixed words of the request. */
  datatype UmaWords = UmaWords(
    grantType: string, grant: string, audience: string, responseMode: string, decision: string, permission: string)

  const UMA_WORDS := UmaWords(
    "grant_type", "urn:ietf:params:oauth:grant-type:uma-ticket", "audience",
    "response_mode", "decision", "permission")

  /** One name with each of a list of values. */
  function ValuePairs(name: Str, values: seq<Str>): seq<Pair> {
    if values == [] then [] else [(name, values[0])] + ValuePairs(name, values[1..])
  }

  function UmaPairs(w: UmaWords, clientId: Str, permissions: seq<Str>): seq<Pair>
  {
    [(Utf8.OfString(w.grantType), Utf8.OfString(w.grant)),
     (Utf8.OfString(w.audience), clientId),
     (Utf8.OfString(w.responseMode), Utf8.OfString(w.decision))]
    + ValuePairs(Utf8.OfString(w.permission), permissions)
  }

  method EncodeUmaBody(w: UmaWords, clientId: Str, permissions: seq<Str>) returns (body: Str)
    ensures body == QueryText(Apply(FormPair, UmaPairs(w, clientId, permissions)))
  {
    var pairs := [(Utf8.OfString(w.grantType), Utf8.OfString(w.grant)),
                  (Utf8.OfString(w.audience), clientId),
                  (Utf8.OfString(w.responseMode), Utf8.OfString(w.decision))];
    var name := Utf8.OfString(w.permission);
    for i := 0 to |permissions|
      invariant pairs + ValuePairs(name, permissions[i..]) == UmaPairs(w, clientId, permissions)
    {
      assert permissions[i..][1..] == permissions[i + 1..];
      pairs := pairs + [(name, permissions[i])];
    }
    assert pairs == UmaPairs(w, clientId, permissions);
    body := QueryText(Apply(FormPair, pairs));
  }

  lemma {:induction false} ValuePairsUtf8(name: Str, permissions: seq<Str>)
    requires Utf8.IsUtf8(name) && forall p | p in permissions :: Utf8.IsUtf8(p)
    ensures forall p | p in ValuePairs(name, permissions) :: PairIsUtf8(p)
  {
    if permissions != [] {
      assert permissions[0] in permissions;
      assert forall p :: p in permissions[1..] ==> p in permissions;
      ValuePairsUtf8(name, permissions[1..]);
    }
  }

  lemma UmaPairsUtf8(w: UmaWords, clientId: Str, permissions: seq<Str>)
    requires Utf8.IsUtf8(clientId) && forall p | p in permissions :: Utf8.IsUtf8(p)
    ensures forall p | p in UmaPairs(w, clientId, permissions) :: PairIsUtf8(p)
  {
    Utf8.OfStringIsUtf8(w.grantType);
    Utf8.OfStringIsUtf8(w.grant);
    Utf8.OfStringIsUtf8(w.audience);
    Utf8.OfStringIsUtf8(w.responseMode);
    Utf8.OfStringIsUtf8(w.decision);
    Utf8.OfStringIsUtf8(w.permission);
    ValuePairsUtf8(Utf8.OfString(w.permission), permissions);
  }

  /** The body with the code's own words. */
  method UmaRequest(clientId: Str, permissions: seq<Str>) returns (body: Str)
    ensures body == QueryText(Apply(FormPair, UmaPairs(UMA_WORDS, clientId, permissions)))
  {
    body := EncodeUmaBody(UMA_WORDS, clientId, permissions);
  }

  /** The UMA body reads back to its exact pair list, repeated `permission` entries in order; this holds for
      any fixed words, `UMA_WORDS` among them. */
  lemma UmaBodyReadsBack(w: UmaWords, clientId: Str, permissions: seq<Str>)
    requires Utf8.IsUtf8(clientId) && forall p | p in permissions :: Utf8.IsUtf8(p)
    ensures var ps := UmaPairs(w, clientId, permissions);
            var read := ReadPairs(QueryText(Apply(FormPair, ps)));
            read.Some? && Apply(DecodedPair, read.value) == ps
  {
    var ps := UmaPairs(w, clientId, permissions);
    UmaPairsUtf8(w, clientId, permissions);
    PairsRoundTrip(FormPair, ps);
  }

  lemma PairsRoundTrip(f: Pair -> Pair, ps: seq<Pair>)
    requires IsPairEncoder(f) && forall p | p in ps :: PairIsUtf8(p)
    ensures ReadPairs(QueryText(Apply(f, ps))) == Some(Apply(f, ps)) && Apply(DecodedPair, Apply(f, ps)) == ps
  {
    EncodedPairsAreSeparatorFree(f, ps);
    PairsReadBack(Apply(f, ps));
    DecodedPairsUndo(f, ps);
  }

  // ---- The SigV4 canonical query string ----

  /** The derived order of pairs of strings. */
  predicate PairLeq(a: Pair, b: Pair) {
    LexLess(a.0, b.0) || (a.0 == b.0 && LexLeq(a.1, b.1))
  }

  lemma PairLeqTransitive(a: Pair, b: Pair, c: Pair)
    requires PairLeq(a, b) && PairLeq(b, c)
    ensures PairLeq(a, c)
  {
    LexIrreflexive(a.0);
    if a.0 != b.0 && b.0 != c.0 {
      LexTransitive(a.0, b.0, c.0);
    }
    if a.0 == b.0 == c.0 && a.1 != b.1 && b.1 != c.1 {
      LexTransitive(a.1, b.1, c.1);
    }
  }

  lemma PairLeqAntisymmetric(a: Pair, b: Pair)
    ensures PairLeq(a, b) || PairLeq(b, a)
    ensures PairLeq(a, b) && PairLeq(b, a) ==> a == b
  {
    LexTotal(a.0, b.0);
    LexTotal(a.1, b.1);
    if LexLess(a.0, b.0) {
      LexAsymmetric(a.0, b.0);
    }
    if LexLess(a.1, b.1) {
      LexAsymmetric(a.1, b.1);
    }
    LexIrreflexive(a.0);
  }

  lemma PairOrder()
    ensures TotalOrder(PairLeq)
  {
    forall a: Pair, b: Pair ensures PairLeq(a, b) || PairLeq(b, a) {
      PairLeqAntisymmetric(a, b);
    }
    forall a: Pair, b: Pair | PairLeq(a, b) && PairLeq(b, a) ensures a == b {
      PairLeqAntisymmetric(a, b);
    }
    forall a: Pair, b: Pair, c: Pair | PairLeq(a, b) && PairLeq(b, c) ensures PairLeq(a, c) {
      PairLeqTransitive(a, b, c);
    }
  }

  /** The pairs of a query, its names taken in some order. */
  function QueryPairs(query: map<Str, seq<Str>>, names: seq<Str>): seq<Pair>
    requires forall n | n in names :: n in query
  {
    if names == [] then [] else ValuePairs(names[0], query[names[0]]) + QueryPairs(query, names[1..])
  }

  /** A listing of the query's names: each once, as a hash map iterates. */
  ghost predicate Lists(names: seq<Str>, query: map<Str, seq<Str>>) {
    multiset(names) == multiset(query.Keys)
  }

  lemma ListedNames(names: seq<Str>, query: map<Str, seq<Str>>)
    requires multiset(names) <= multiset(query.Keys)
    ensures forall n | n in names :: n in query
  {
    forall n | n in names ensures n in query {
      assert n in multiset(names);
    }
  }

  function CanonicalText(query: map<Str, seq<Str>>, names: seq<Str>): Str
    requires forall n | n in names :: n in query
  {
    QueryText(Sort(Apply(UriPair, QueryPairs(query, names)), PairLeq))
  }

  lemma NextValuePair(name: Str, values: seq<Str>, i: nat, r: seq<Pair>)
    requires i < |values|
    ensures r + Apply(UriPair, ValuePairs(name, values[i..]))
         == r + [(Encoded(name, false), Encoded(values[i], false))] + Apply(UriPair, ValuePairs(name, values[i + 1..]))
  {
    assert values[i..][1..] == values[i + 1..];
    assert ValuePairs(name, values[i..])[1..] == ValuePairs(name, values[i + 1..]);
  }

  /** The inner loop: one name with all its values, in order. */
  method PushValues(pairs: seq<Pair>, name: Str, values: seq<Str>) returns (r: seq<Pair>)
    ensures r == pairs + Apply(UriPair, ValuePairs(name, values))
  {
    r := pairs;
    var encodedName := UriEncode(name);
    for i := 0 to |values|
      invariant r + Apply(UriPair, ValuePairs(name, values[i..])) == pairs + Apply(UriPair, ValuePairs(name, values))
    {
      var value := UriEncode(values[i]);
      NextValuePair(name, values, i, r);
      r := r + [(encodedName, value)];
    }
  }

  /** The outer loop: the map's names in any order, each once. */
  method CollectPairs(query: map<Str, seq<Str>>) returns (pairs: seq<Pair>, ghost seen: seq<Str>)
    ensures Lists(seen, query) && forall n | n in seen :: n in query
    ensures pairs == Apply(UriPair, QueryPairs(query, seen))
  {
    var left := query.Keys;
    pairs, seen := [], [];
    while left != {}
      invariant left <= query.Keys && multiset(seen) == multiset(query.Keys - left)
      invariant forall n | n in seen :: n in query
      invariant pairs == Apply(UriPair, QueryPairs(query, seen))
      decreases left
    {
      var name :| name in left;
      pairs := PushValues(pairs, name, query[name]);
      NextName(query, seen, name);
      MarkSeen(query.Keys, left, name);
      seen := seen + [name];
      left := left - {name};
    }
    assert query.Keys - {} == query.Keys;
  }

  lemma MarkSeen(all: set<Str>, left: set<Str>, name: Str)
    requires name in left && left <= all
    ensures multiset(all - (left - {name})) == multiset(all - left) + multiset{name}
  {
    assert all - (left - {name}) == (all - left) + {name};
  }

  lemma NextName(query: map<Str, seq<Str>>, names: seq<Str>, name: Str)
    requires name in query && forall n | n in names :: n in query
    ensures Apply(UriPair, QueryPairs(query, names + [name]))
         == Apply(UriPair, QueryPairs(query, names)) + Apply(UriPair, ValuePairs(name, query[name]))
  {
    QueryPairsSnoc(query, names, name);
    ApplyConcat(UriPair, QueryPairs(query, names), ValuePairs(name, query[name]));
  }

  /** Whatever order the map was iterated in, the result is the canonical text for every order. */
  method CanonicalQueryString(query: map<Str, seq<Str>>) returns (text: Str)
    ensures forall names | Lists(names, query) ::
              (forall n | n in names :: n in query) && text == CanonicalText(query, names)
  {
    var pairs, seen := CollectPairs(query);
    text := QueryText(Sort(pairs, PairLeq));
    EveryListing(query, seen);
  }

  lemma EveryListing(query: map<Str, seq<Str>>, seen: seq<Str>)
    requires Lists(seen, query) && forall n | n in seen :: n in query
    ensures forall names | Lists(names, query) ::
              (forall n | n in names :: n in query) && CanonicalText(query, seen) == CanonicalText(query, names)
  {
    forall names | Lists(names, query)
      ensures (forall n | n in names :: n in query) && CanonicalText(query, seen) == CanonicalText(query, names)
    {
      ListedNames(names, query);
      CanonicalTextIgnoresOrder(query, seen, names);
    }
  }

  lemma {:induction false} ApplyConcat(f: Pair -> Pair, a: seq<Pair>, b: seq<Pair>)
    ensures Apply(f, a + b) == Apply(f, a) + Apply(f, b)
  {
    if a == [] {
      assert a + b == b;
    } else {
      assert (a + b)[1..] == a[1..] + b;
      ApplyConcat(f, a[1..], b);
    }
  }

  lemma {:induction false} QueryPairsSnoc(query: map<Str, seq<Str>>, names: seq<Str>, name: Str)
    requires name in query && forall n | n in names :: n in query
    ensures QueryPairs(query, names + [name]) == QueryPairs(query, names) + ValuePairs(name, query[name])
  {
    if names == [] {
      assert QueryPairs(query, [name][1..]) == [];
    } else {
      assert (names + [name])[1..] == names[1..] + [name];
      QueryPairsSnoc(query, names[1..], name);
    }
  }

  /** Where the head of a list stands in a rearrangement of it. */
  lemma PullOut<T>(a: seq<T>, b: seq<T>) returns (p: seq<T>, q: seq<T>)
    requires a != [] && multiset(a) == multiset(b)
    ensures b == p + ([a[0]] + q) && multiset(a[1..]) == multiset(p + q)
  {
    assert a[0] in multiset(b);
    var i :| 0 <= i < |b| && b[i] == a[0];
    p, q := b[..i], b[i + 1..];
    assert b == p + ([a[0]] + q);
    RemoveHead(a[0], a[1..]);
    assert [a[0]] + a[1..] == a;
    RemoveMiddle(p, a[0], q);
  }

  lemma RemoveHead<T>(x: T, s: seq<T>)
    ensures multiset(s) == multiset([x] + s) - multiset{x}
  {
  }

  lemma RemoveMiddle<T>(p: seq<T>, x: T, q: seq<T>)
    ensures multiset(p + q) == multiset(p + ([x] + q)) - multiset{x}
  {
  }

  /** The pairs of a query are the same multiset in every order of its names. */
  lemma {:induction false} QueryPairsPermute(query: map<Str, seq<Str>>, a: seq<Str>, b: seq<Str>)
    requires (forall n | n in a :: n in query) && (forall n | n in b :: n in query)
    requires multiset(a) == multiset(b)
    ensures multiset(QueryPairs(query, a)) == multiset(QueryPairs(query, b))
  {
    if a == [] {
      assert |multiset(b)| == 0;
    } else {
      var p, q := PullOut(a, b);
      QueryPairsPullOut(query, p, a[0], q);
      QueryPairsPermute(query, a[1..], p + q);
    }
  }

  lemma {:induction false} QueryPairsPullOut(query: map<Str, seq<Str>>, p: seq<Str>, name: Str, q: seq<Str>)
    requires forall n | n in p + ([name] + q) :: n in query
    ensures forall n | n in p + q :: n in query
    ensures multiset(QueryPairs(query, p + ([name] + q)))
         == multiset(ValuePairs(name, query[name])) + multiset(QueryPairs(query, p + q))
  {
    var whole := p + ([name] + q);
    assert forall n :: n in p || n == name || n in q ==> n in whole;
    if p == [] {
      assert whole[1..] == q && p + q == q;
    } else {
      assert whole[1..] == p[1..] + ([name] + q) && (p + q)[1..] == p[1..] + q;
      QueryPairsPullOut(query, p[1..], name, q);
    }
  }

  lemma {:induction false} ApplyPermute(f: Pair -> Pair, a: seq<Pair>, b: seq<Pair>)
    requires multiset(a) == multiset(b)
    ensures multiset(Apply(f, a)) == multiset(Apply(f, b))
  {
    if a == [] {
      assert |multiset(b)| == 0;
    } else {
      var p, q := PullOut(a, b);
      ApplyPermute(f, a[1..], p + q);
      ApplyConcat(f, p, [a[0]] + q);
      ApplyConcat(f, p, q);
      assert ([a[0]] + q)[1..] == q;
    }
  }

  /** The canonical text is one text, whatever order the map is iterated in. */
  lemma CanonicalTextIgnoresOrder(query: map<Str, seq<Str>>, a: seq<Str>, b: seq<Str>)
    requires Lists(a, query) && Lists(b, query)
    requires (forall n | n in a :: n in query) && (forall n | n in b :: n in query)
    ensures CanonicalText(query, a) == CanonicalText(query, b)
  {
    var p, q := Apply(UriPair, QueryPairs(query, a)), Apply(UriPair, QueryPairs(query, b));
    QueryPairsPermute(query, a, b);
    ApplyPermute(UriPair, QueryPairs(query, a), QueryPairs(query, b));
    PairOrder();
    SortSorted(p, PairLeq);
    SortSorted(q, PairLeq);
    SortedUnique(Sort(p, PairLeq), Sort(q, PairLeq), PairLeq);
  }

  /** The canonical text splits back to its pairs, sorted; decoded, they are the query's own pairs. */
  lemma CanonicalTextReadsBack(query: map<Str, seq<Str>>, names: seq<Str>)
    requires forall n | n in names :: n in query
    requires forall p | p in QueryPairs(query, names) :: PairIsUtf8(p)
    ensures var read := ReadPairs(CanonicalText(query, names));
            && read.Some? && SortedBy(read.value, PairLeq)
            && multiset(read.value) == multiset(Apply(UriPair, QueryPairs(query, names)))
            && multiset(Apply(DecodedPair, read.value)) == multiset(QueryPairs(query, names))
  {
    var raw := QueryPairs(query, names);
    var encoded := Apply(UriPair, raw);
    var sorted := Sort(encoded, PairLeq);
    PairOrder();
    SortSorted(encoded, PairLeq);
    EncodedPairsAreSeparatorFree(UriPair, raw);
    forall p | p in sorted ensures SeparatorFree(p) {
      assert p in multiset(sorted);
      assert p in encoded;
    }
    PairsReadBack(sorted);
    ApplyPermute(DecodedPair, sorted, encoded);
    DecodedPairsUndo(UriPair, raw);
  }
}
