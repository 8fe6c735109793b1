/** UTF-8 (RFC 3629 section 4) with the outcome of Rust's `std::str::from_utf8` on any byte string. */
module Utf8 {
  import opened Wrappers
  import opened Bytes

  /** A Unicode scalar value. */
  type Scalar = c: int | 0 <= c < 0xD800 || 0xE000 <= c < 0x11_0000

  function EncodeScalar(c: Scalar): (r: Str)
    ensures 1 <= |r| <= 4
  {
    if c < 0x80 then [c]
    else if c < 0x800 then [0xC0 + c / 0x40, 0x80 + c % 0x40]
    else if c < 0x1_0000 then [0xE0 + c / 0x1000, 0x80 + c / 0x40 % 0x40, 0x80 + c % 0x40]
    else [0xF0 + c / 0x4_0000, 0x80 + c / 0x1000 % 0x40, 0x80 + c / 0x40 % 0x40, 0x80 + c % 0x40]
  }

  function Encode(cs: seq<Scalar>): Str {
    if cs == [] then [] else EncodeScalar(cs[0]) + Encode(cs[1..])
  }

  /** The bytes of a text. */
  function OfString(s: string): Str {
    Encode(Scalars(s))
  }

  predicate Cont(b: int) { 0x80 <= b < 0xC0 }

  /** What the first bytes of a string hold: a whole character of `n` bytes, or not one.
      `Bad(None)` is "the input ended inside a character". */
  datatype Scan = Char(n: nat) | Bad(errorLen: Option<nat>)

  predicate SecondOk(first: Byte, second: Byte) {
    if first == 0xE0 then 0xA0 <= second < 0xC0
    else if first == 0xED then 0x80 <= second < 0xA0
    else if first == 0xF0 then 0x90 <= second < 0xC0
    else if first == 0xF4 then 0x80 <= second < 0x90
    else Cont(second)
  }

  function Width(first: Byte): (w: nat)
    ensures w <= 4
  {
    if first < 0x80 then 1
    else if 0xC2 <= first < 0xE0 then 2
    else if 0xE0 <= first < 0xF0 then 3
    else if 0xF0 <= first < 0xF5 then 4
    else 0
  }

  function ScanFirst(s: Str): (r: Scan)
    requires s != []
    ensures r.Char? ==> 1 <= r.n <= |s| && r.n == Width(s[0])
    ensures r.Bad? && r.errorLen.Some? ==> 1 <= r.errorLen.value <= |s|
  {
    var w := Width(s[0]);
    if w == 0 then Bad(Some(1))
    else if w == 1 then Char(1)
    else if |s| < 2 then Bad(None)
    else if !SecondOk(s[0], s[1]) then Bad(Some(1))
    else if w == 2 then Char(2)
    else if |s| < 3 then Bad(None)
    else if !Cont(s[2]) then Bad(Some(2))
    else if w == 3 then Char(3)
    else if |s| < 4 then Bad(None)
    else if !Cont(s[3]) then Bad(Some(3))
    else Char(4)
  }

  /** `std::str::from_utf8`: valid, or how far it is valid and how long the offending sequence is. */
  datatype Check = Valid | Invalid(validUpTo: nat, errorLen: Option<nat>)

  function FromUtf8(s: Str): (r: Check)
    ensures r.Invalid? ==> r.validUpTo < |s|
    ensures r.Invalid? && r.errorLen.Some? ==> 1 <= r.errorLen.value <= |s| - r.validUpTo
  {
    if s == [] then Valid
    else match ScanFirst(s)
      case Bad(e) => Invalid(0, e)
      case Char(n) =>
        match FromUtf8(s[n..])
        case Valid => Valid
        case Invalid(v, e) => Invalid(n + v, e)
  }

  predicate IsUtf8(s: Str) { FromUtf8(s).Valid? }

  lemma EncodeScalarScans(c: Scalar, rest: Str)
    ensures ScanFirst(EncodeScalar(c) + rest) == Char(|EncodeScalar(c)|)
  {
  }

  lemma {:induction false} EncodeValid(cs: seq<Scalar>)
    ensures IsUtf8(Encode(cs))
  {
    if cs != [] {
      var head, rest := EncodeScalar(cs[0]), Encode(cs[1..]);
      EncodeScalarScans(cs[0], rest);
      EncodeValid(cs[1..]);
      assert (head + rest)[|head|..] == rest;
    }
  }

  function DecodeFirst(s: Str): (c: Scalar)
    requires s != [] && ScanFirst(s).Char?
  {
    var b: seq<int> := s;
    if Width(s[0]) == 1 then b[0]
    else if Width(s[0]) == 2 then (b[0] - 0xC0) * 0x40 + (b[1] - 0x80)
    else if Width(s[0]) == 3 then (b[0] - 0xE0) * 0x1000 + (b[1] - 0x80) * 0x40 + (b[2] - 0x80)
    else (b[0] - 0xF0) * 0x4_0000 + (b[1] - 0x80) * 0x1000 + (b[2] - 0x80) * 0x40 + (b[3] - 0x80)
  }

  lemma Sextets(a: int, b: int, c: int, d: int)
    requires 0 <= a && 0 <= b < 0x40 && 0 <= c < 0x40 && 0 <= d < 0x40
    ensures var n := a * 0x4_0000 + b * 0x1000 + c * 0x40 + d;
            n % 0x40 == d && n / 0x40 % 0x40 == c && n / 0x1000 % 0x40 == b && n / 0x4_0000 == a
  {
    var n := a * 0x4_0000 + b * 0x1000 + c * 0x40 + d;
    assert n / 0x40 == a * 0x1000 + b * 0x40 + c;
    assert n / 0x1000 == a * 0x40 + b;
  }

  /** Decoding one character and encoding it again gives the bytes it was read from. */
  lemma DecodeFirstEncodes(s: Str)
    requires s != [] && ScanFirst(s).Char?
    ensures EncodeScalar(DecodeFirst(s)) == s[..ScanFirst(s).n]
  {
    var b: seq<int> := s;
    var w := Width(s[0]);
    if w == 1 {
    } else if w == 2 {
      Sextets(0, 0, b[0] - 0xC0, b[1] - 0x80);
    } else if w == 3 {
      Sextets(0, b[0] - 0xE0, b[1] - 0x80, b[2] - 0x80);
    } else {
      Sextets(b[0] - 0xF0, b[1] - 0x80, b[2] - 0x80, b[3] - 0x80);
    }
  }

  function Decode(s: Str): (cs: seq<Scalar>)
    requires IsUtf8(s)
    ensures Encode(cs) == s
  {
    if s == [] then []
    else
      var n := ScanFirst(s).n;
      assert s == s[..n] + s[n..];
      DecodeFirstEncodes(s);
      [DecodeFirst(s)] + Decode(s[n..])
  }

  /** The checker accepts exactly the encodings of scalar-value sequences. */
  lemma Utf8IffEncoding(s: Str)
    ensures IsUtf8(s) <==> exists cs :: Encode(cs) == s
  {
    if IsUtf8(s) {
      assert Encode(Decode(s)) == s;
    }
    forall cs | Encode(cs) == s ensures IsUtf8(s) {
      EncodeValid(cs);
    }
  }

  lemma {:induction false} Utf8Concat(a: Str, b: Str)
    requires IsUtf8(a) && IsUtf8(b)
    ensures IsUtf8(a + b)
  {
    if a == [] {
      assert a + b == b;
    } else {
      var n := ScanFirst(a).n;
      assert ScanFirst(a + b) == Char(n);
      assert (a + b)[n..] == a[n..] + b;
      Utf8Concat(a[n..], b);
    }
  }

  lemma Reassemble(c: nat)
    ensures c == c / 0x40 * 0x40 + c % 0x40
    ensures c == c / 0x1000 * 0x1000 + c / 0x40 % 0x40 * 0x40 + c % 0x40
    ensures c == c / 0x4_0000 * 0x4_0000 + c / 0x1000 % 0x40 * 0x1000 + c / 0x40 % 0x40 * 0x40 + c % 0x40
  {
    assert c / 0x40 / 0x40 == c / 0x1000 && c / 0x1000 / 0x40 == c / 0x4_0000;
  }

  lemma EncodeScalarInjective(a: Scalar, b: Scalar)
    requires EncodeScalar(a) == EncodeScalar(b)
    ensures a == b
  {
    Reassemble(a);
    Reassemble(b);
    var p, q := EncodeScalar(a), EncodeScalar(b);
    assert p[0] == q[0] && (|p| > 1 ==> p[1] == q[1]) && (|p| > 2 ==> p[2] == q[2]) && (|p| > 3 ==> p[3] == q[3]);
  }

  /** No two scalar sequences have the same encoding. */
  lemma {:induction false} EncodeInjective(a: seq<Scalar>, b: seq<Scalar>)
    requires Encode(a) == Encode(b)
    ensures a == b
  {
    if a != [] && b != [] {
      var s := Encode(a);
      EncodeScalarScans(a[0], Encode(a[1..]));
      EncodeScalarScans(b[0], Encode(b[1..]));
      var n := |EncodeScalar(a[0])|;
      assert s[..n] == EncodeScalar(a[0]) && s[..n] == EncodeScalar(b[0]);
      EncodeScalarInjective(a[0], b[0]);
      assert s[n..] == Encode(a[1..]) && s[n..] == Encode(b[1..]);
      EncodeInjective(a[1..], b[1..]);
      assert a == [a[0]] + a[1..] && b == [b[0]] + b[1..];
    }
  }

  function Scalars(s: string): seq<Scalar> {
    seq(|s|, i requires 0 <= i < |s| => s[i] as int)
  }

  lemma OfStringInjective(a: string, b: string)
    requires OfString(a) == OfString(b)
    ensures a == b
  {
    EncodeInjective(Scalars(a), Scalars(b));
    assert |a| == |b|;
    forall i | 0 <= i < |a| ensures a[i] == b[i] {
      assert Scalars(a)[i] == Scalars(b)[i];
    }
  }

  lemma {:induction false} EncodeAscii(cs: seq<Scalar>)
    requires forall i | 0 <= i < |cs| :: cs[i] < 128
    ensures Encode(cs) == cs
  {
    if cs != [] {
      EncodeAscii(cs[1..]);
      assert cs == [cs[0]] + cs[1..];
    }
  }

  /** An ASCII text has one byte for each character. */
  lemma OfAscii(s: string)
    requires forall i | 0 <= i < |s| :: s[i] as int < 128
    ensures OfString(s) == seq(|s|, i requires 0 <= i < |s| => s[i] as int)
  {
    EncodeAscii(Scalars(s));
  }

  lemma OfStringIsUtf8(s: string)
    ensures IsUtf8(OfString(s))
  {
    EncodeValid(Scalars(s));
  }

  /** How many leading bytes are valid UTF-8. */
  function ValidLen(s: Str): (v: nat)
    ensures v <= |s|
  {
    match FromUtf8(s)
    case Valid => |s|
    case Invalid(v, _) => v
  }

  /** Inside the first character of a valid text: nothing but the empty prefix is valid. */
  lemma CutInsideChar(s: Str, k: nat)
    requires s != [] && ScanFirst(s).Char? && 0 < k < ScanFirst(s).n
    ensures FromUtf8(s[..k]) == Invalid(0, None)
  {
    assert ScanFirst(s[..k]) == Bad(None);
  }

  /** A whole first character shifts the check by its width. */
  lemma CutAfterChar(s: Str, k: nat)
    requires s != [] && ScanFirst(s).Char? && ScanFirst(s).n <= k <= |s|
    ensures var n := ScanFirst(s).n;
            && IsUtf8(s[..k]) == IsUtf8(s[n..][..k - n])
            && ValidLen(s[..k]) == n + ValidLen(s[n..][..k - n])
            && (FromUtf8(s[..k]).Invalid? ==>
                FromUtf8(s[n..][..k - n]) == Invalid(ValidLen(s[..k]) - n, FromUtf8(s[..k]).errorLen))
  {
    var n := ScanFirst(s).n;
    assert ScanFirst(s[..k]) == Char(n);
    assert s[..k][n..] == s[n..][..k - n];
  }

  /** Cutting a valid text at any byte limit: the check says "valid" or "ended inside a character",
      never "invalid byte"; it loses at most 3 bytes and keeps a valid text. */
  lemma {:induction false} CutOfValid(s: Str, limit: nat)
    requires IsUtf8(s) && limit <= |s|
    ensures FromUtf8(s[..limit]).Invalid? ==> FromUtf8(s[..limit]).errorLen == None
    ensures limit - 3 <= ValidLen(s[..limit])
    ensures IsUtf8(s[..ValidLen(s[..limit])])
  {
    if limit != 0 {
      var n := ScanFirst(s).n;
      if limit < n {
        CutInsideChar(s, limit);
      } else {
        CutOfValid(s[n..], limit - n);
        CutAfterChar(s, limit);
        CutAfterChar(s, ValidLen(s[..limit]));
      }
    }
  }

  /** ... and no longer prefix within the limit is valid. */
  lemma {:induction false} CutIsLongest(s: Str, limit: nat, k: nat)
    requires IsUtf8(s) && k <= limit <= |s| && IsUtf8(s[..k])
    ensures k <= ValidLen(s[..limit])
  {
    if k != 0 {
      var n := ScanFirst(s).n;
      if k < n {
        CutInsideChar(s, k);
      } else {
        CutAfterChar(s, k);
        CutAfterChar(s, limit);
        CutIsLongest(s[n..], limit - n, k - n);
      }
    }
  }

  /** `String::from_utf8_lossy`: each invalid sequence becomes U+FFFD. */
  function Lossy(s: Str): Str
    decreases |s|
  {
    match FromUtf8(s)
    case Valid => s
    case Invalid(v, None) => s[..v] + [0xEF, 0xBF, 0xBD]
    case Invalid(v, Some(n)) => s[..v] + [0xEF, 0xBF, 0xBD] + Lossy(s[v + n..])
  }

  /** U+FFFD. */
  lemma ReplacementCharacter()
    ensures EncodeScalar(0xFFFD) == [0xEF, 0xBF, 0xBD]
  {
  }

  /** What is lost is replaced by these bytes: once for each invalid sequence, and once for a character cut short. */
  lemma LossyReplaces(s: Str, v: nat, mark: Str)
    requires FromUtf8(s).Invalid? && v == FromUtf8(s).validUpTo && mark == [0xEF, 0xBF, 0xBD]
    ensures Lossy(s) == s[..v] + mark + match FromUtf8(s).errorLen case None => [] case Some(n) => Lossy(s[v + n..])
  {
  }

  lemma {:induction false} ValidPrefix(s: Str)
    ensures IsUtf8(s[..ValidLen(s)])
  {
    if s != [] && ScanFirst(s).Char? {
      var n := ScanFirst(s).n;
      ValidPrefix(s[n..]);
      CutAfterChar(s, ValidLen(s));
    }
  }

  lemma Replaced(valid: Str)
    requires IsUtf8(valid)
    ensures IsUtf8(valid + [0xEF, 0xBF, 0xBD])
  {
    var mark := [0xEF, 0xBF, 0xBD];
    ReplacementCharacter();
    EncodeScalarScans(0xFFFD, []);
    assert mark + [] == mark && IsUtf8(mark);
    Utf8Concat(valid, mark);
  }

  /** The result is always text, and a text is left as it is. */
  lemma {:induction false} LossyIsText(s: Str)
    ensures IsUtf8(Lossy(s)) && (IsUtf8(s) ==> Lossy(s) == s)
    decreases |s|
  {
    match FromUtf8(s)
    case Valid =>
    case Invalid(v, e) =>
      ValidPrefix(s);
      Replaced(s[..v]);
      match e
      case None =>
      case Some(n) =>
        LossyIsText(s[v + n..]);
        Utf8Concat(s[..v] + [0xEF, 0xBF, 0xBD], Lossy(s[v + n..]));
  }
}
